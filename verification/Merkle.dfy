/** The lazily hashed block tree of the data zone.

    Every block in use has an address: an inode and the chain of indices that leads from it
    to the block.  The ghost map A from addresses to block numbers is the index tree, and fr
    holds the blocks that have been allocated but not yet written. */
module Merkle {
  import opened Layout
  import opened Blocks
  import opened Crypto

  datatype Addr = Addr(iid: nat, path: seq<nat>)

  type Tree = map<Addr, nat>

  /** hashidx_t: the inode or index block that holds a hash, and the slot in it. */
  datatype HashIdx = HashIdx(id: nat, idx: nat)

  type Route = seq<HashIdx>

  datatype Cached = Cached(data: Block, dirty: bool, refcnt: nat, route: Route, key: KeyIv)

  /** struct pd_wb_node */
  datatype Pending = Pending(route: Route, hash: Hash)

  datatype Inode = Inode(tp: nat, size: nat, bid: seq<nat>, hash: seq<Hash>, key: KeyIv)

  datatype State = State(
    cs: Suite,
    disk: map<nat, Block>,
    bcac: map<nat, Cached>,
    pd: map<nat, Pending>,
    ino: map<nat, Inode>,
    used: set<nat>)

  // What a transfer within a file leaves alone in its inode.
  ghost predicate SameHead(x: Inode, y: Inode) {
    x.tp == y.tp && x.size == y.size && x.key == y.key
  }

  // ---------- addresses ----------

  ghost predicate IsRoot(a: Addr) { |a.path| == 1 }

  ghost function Parent(a: Addr): Addr
    requires |a.path| > 0
  {
    Addr(a.iid, a.path[..|a.path| - 1])
  }

  ghost function Last(a: Addr): nat
    requires |a.path| > 0
  {
    a.path[|a.path| - 1]
  }

  ghost function Child(a: Addr, j: nat): Addr {
    Addr(a.iid, a.path + [j])
  }

  ghost predicate IsLeaf(a: Addr) { LeafPath(a.path) }

  lemma ChildParent(a: Addr, j: nat)
    requires |a.path| > 0
    ensures Parent(Child(a, j)) == a && Last(Child(a, j)) == j && !IsRoot(Child(a, j))
  {
    assert (a.path + [j])[..|a.path|] == a.path;
  }

  lemma ParentChild(a: Addr)
    requires |a.path| > 1
    ensures Child(Parent(a), Last(a)) == a && |Parent(a).path| > 0
  {
    assert a.path[..|a.path| - 1] + [a.path[|a.path| - 1]] == a.path;
  }

  // ---------- what a block holds ----------

  ghost function OnDisk(s: State, b: nat): Block {
    if b in s.disk then s.disk[b] else Zeros()
  }

  ghost function Plain(s: State, i: nat, b: nat): Block
    requires i in s.ino
  {
    s.cs.dec(s.ino[i].key, OnDisk(s, b))
  }

  /** The current plaintext of the block at address a. */
  ghost function View(s: State, A: Tree, fr: set<nat>, a: Addr): Block
    requires a in A && a.iid in s.ino
  {
    var b := A[a];
    if b in s.bcac then s.bcac[b].data else if b in fr then Zeros() else Plain(s, a.iid, b)
  }

  ghost predicate Addressed(s: State, A: Tree, a: Addr) {
    a in A && a.iid in s.ino && |s.ino[a.iid].bid| == |s.ino[a.iid].hash| == NSLOTS &&
    ValidPath(a.path) && (IsRoot(a) || Parent(a) in A)
  }

  // The slot of the inode or of the parent block that points to a.
  ghost function SlotBid(s: State, A: Tree, fr: set<nat>, a: Addr): nat
    requires Addressed(s, A, a)
  {
    if IsRoot(a) then s.ino[a.iid].bid[a.path[0]] else EntryBid(View(s, A, fr, Parent(a)), Last(a))
  }

  ghost function SlotHash(s: State, A: Tree, fr: set<nat>, a: Addr): Hash
    requires Addressed(s, A, a)
  {
    if IsRoot(a) then s.ino[a.iid].hash[a.path[0]] else EntryHash(View(s, A, fr, Parent(a)), Last(a))
  }

  // The hash the block at a has to have when it is next loaded.
  ghost function Expected(s: State, A: Tree, fr: set<nat>, a: Addr): Hash
    requires Addressed(s, A, a)
  {
    if A[a] in s.pd then s.pd[A[a]].hash else SlotHash(s, A, fr, a)
  }

  /** The route handed along with a block whose hash sits at the end of a's path. */
  ghost function TrueRoute(A: Tree, a: Addr): (r: Route)
    requires forall m :: 1 <= m < |a.path| ==> Addr(a.iid, a.path[..m]) in A
    ensures |r| == 4
  {
    seq(4, m requires 0 <= m < 4 =>
      if m == 0 && |a.path| > 0 then HashIdx(a.iid, a.path[0])
      else if m < |a.path| then HashIdx(A[Addr(a.iid, a.path[..m])], a.path[m])
      else HashIdx(0, 0))
  }

  // ---------- the invariant ----------

  // The tree is linked: the slot that points to a holds its block number, and no index
  // entry points outside the tree.
  ghost predicate Linked(s: State, A: Tree, fr: set<nat>, a: Addr)
    requires Addressed(s, A, a)
  {
    SlotBid(s, A, fr, a) == A[a] &&
    (!IsLeaf(a) ==> forall j :: 0 <= j < INDEX_PER_BLOCK ==>
      EntryBid(View(s, A, fr, a), j) != 0 ==> Child(a, j) in A)
  }

  // Cache, disk and pending hash agree about a.
  ghost predicate Hashed(s: State, A: Tree, fr: set<nat>, a: Addr)
    requires Addressed(s, A, a)
  {
    var b := A[a];
    (b in s.bcac ==> s.bcac[b].key == s.ino[a.iid].key) &&
    (b in s.bcac && !s.bcac[b].dirty && b !in fr ==> s.bcac[b].data == Plain(s, a.iid, b)) &&
    (b !in fr && !(b in s.bcac && s.bcac[b].dirty) ==> s.cs.hash(Plain(s, a.iid, b)) == Expected(s, A, fr, a)) &&
    (b in fr ==> b !in s.pd && (b in s.bcac ==> s.bcac[b].data == Zeros() && !s.bcac[b].dirty && s.bcac[b].refcnt > 0))
  }

  ghost predicate Good(s: State, A: Tree, fr: set<nat>, a: Addr) {
    Addressed(s, A, a) && Linked(s, A, fr, a) && Hashed(s, A, fr, a)
  }

  ghost predicate Global(s: State, A: Tree) {
    Sane(s.cs) &&
    (forall a, a' :: a in A && a' in A && A[a] == A[a'] ==> a == a') &&
    (forall a :: a in A ==> A[a] in s.used && DATA_START <= A[a] < UINT32_SPAN) &&
    (forall b :: b in s.bcac ==> b in s.used) &&
    (forall b :: b in s.pd ==> b in s.used) &&
    (forall i :: i in s.ino ==> |s.ino[i].bid| == |s.ino[i].hash| == NSLOTS) &&
    (forall i, k :: i in s.ino && 0 <= k < NSLOTS && s.ino[i].bid[k] != 0 ==> Addr(i, [k]) in A)
  }

  /** Invariant of every run without deletions. */
  ghost predicate Inv(s: State, A: Tree, fr: set<nat>) {
    Global(s, A) && forall a :: a in A ==> Good(s, A, fr, a)
  }
}
