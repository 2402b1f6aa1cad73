/** The life of a file system, from mkfs on. */
module Lifetimes {
  import opened Layout
  import opened Blocks
  import opened Crypto
  import opened Merkle
  import opened Relations
  import opened FileBytes
  import opened Mending
  import opened Rooms
  import opened Misroutes
  import opened Flush
  import opened EnclaveStore
  import opened Sessions
  import opened Remounts
  import opened Formats
  import SB = Superblocks

  function Flatten(sessions: seq<seq<Op>>): seq<Op> {
    if sessions == [] then [] else Flatten(sessions[..|sessions| - 1]) + sessions[|sessions| - 1]
  }

  // One more session at the end.
  lemma FlattenStep(f: Flat, sessions: seq<seq<Op>>, k: nat)
    requires k < |sessions|
    ensures var x, y := Flatten(sessions[..k]), sessions[k];
      Flatten(sessions[..k + 1]) == x + y && Needs(f, x + y) == Needs(f, x) + Needs(Replay(f, x), y) &&
      Replay(f, x + y) == Replay(Replay(f, x), y) && Outputs(f, x + y) == Outputs(f, x) + Outputs(Replay(f, x), y)
  {
    assert sessions[..k + 1][..k] == sessions[..k];
    ReplayAppend(f, Flatten(sessions[..k]), sessions[k]);
  }

  lemma {:induction false} FlattenGrows(f: Flat, sessions: seq<seq<Op>>, k: nat)
    requires k <= |sessions|
    ensures Needs(f, Flatten(sessions[..k])) <= Needs(f, Flatten(sessions))
    decreases |sessions|
  {
    var n := |sessions| - 1;
    if k == |sessions| {
      assert sessions[..k] == sessions;
    } else {
      FlattenGrows(f, sessions[..n], k);
      assert sessions[..n][..k] == sessions[..k];
      ReplayAppend(f, Flatten(sessions[..n]), sessions[n]);
    }
  }

  lemma FlattenNothing(f: Flat, sessions: seq<seq<Op>>)
    ensures Flatten(sessions[..0]) == [] && Needs(f, []) == {} && Replay(f, []) == f && Outputs(f, []) == []
  {
  }

  // The first n sessions have straight transfers only, or read only.
  ghost predicate SafeUpTo(sessions: seq<seq<Op>>, n: int) {
    forall k :: 0 <= k < |sessions| && k < n ==> AllStraight(sessions[k]) || OnlyReads(sessions[k])
  }

  // The files of a new file system.
  function NewFiles(k: KeyIv): Flat { map[0 := File(INODE_TP_DIR, k, [])] }

  // After n sessions, with what has been read so far: volume and store are ready for the next one.
  ghost predicate Lived(f: Flat, sessions: seq<seq<Op>>, n: nat, outs: seq<Bytes>, v: SB.Volume, m: Enclave)
    requires n <= |sessions|
    reads v, m
  {
    var x := Flatten(sessions[..n]);
    v.cs == m.cs && SB.Sized(v.sb) && m.fr == {} && Highest(DATA_START - 1, m.used, v.sb.maxbid) &&
    InFiles(m.St(), m.A) && AllRouted(m.St(), m.A) && Quiet(m.St()) && HeadsFit(m.inodes) && Zoned(m.used) &&
    Took(map[], {}, m.A, m.used, Needs(f, x)) && outs == Outputs(f, x) &&
    Whole(m.St(), m.A) && FilesOf(m.St(), m.A) == Replay(f, x) &&
    (SafeUpTo(sessions, n) ==> Files(m.St(), m.A) && forall a :: a in m.A ==> Settled(m.St(), m.A, a))
  }

  // There is room for session n.
  lemma RoomThere(f: Flat, sessions: seq<seq<Op>>, n: nat, A: Tree, u: set<nat>)
    requires n < |sessions| && |Needs(f, Flatten(sessions))| <= CAPACITY
    requires Took(map[], {}, A, u, Needs(f, Flatten(sessions[..n])))
    ensures Room(A, u, Needs(Replay(f, Flatten(sessions[..n])), sessions[n]))
  {
    hide Flatten, Took, Room;
    var x := Flatten(sessions[..n]);
    FlattenStep(f, sessions, n);
    FlattenGrows(f, sessions, n);
    FlattenGrows(f, sessions, n + 1);
    RoomAtFirst(f, Flatten(sessions));
    RoomLeft(map[], {}, A, u, Needs(f, x), Needs(Replay(f, x), sessions[n]), Needs(f, Flatten(sessions)));
  }

  // Session n, up to the mount behind it.
  method NextSession(ghost f: Flat, sessions: seq<seq<Op>>, n: nat, outs: seq<Bytes>, v: SB.Volume, m: Enclave,
                     iv: Bytes, key: Bytes, ks: SB.Keys)
    returns (outs': seq<Bytes>, m': Enclave)
    requires n < |sessions| && AllFit(sessions[n]) && |Needs(f, Flatten(sessions))| <= CAPACITY
    requires Lived(f, sessions, n, outs, v, m) && SafeUpTo(sessions, n)
    modifies m`disk, m`pdWb, m`bcac, m`inodes, m`used, m`A, m`fr, v`disk, v`sb
    ensures fresh(m') && Lived(f, sessions, n + 1, outs', v, m')
  {
    hide Files, Whole, FilesOf, AllRouted, InFiles, HeadsFit, Zoned, Settled, Replay, Outputs, Needs, Flatten,
      AllStraight, OnlyReads, Quiet, AllFit, Took, Room, Highest, SB.Sized;
    ghost var x := Flatten(sessions[..n]);
    FlattenStep(f, sessions, n);
    RoomThere(f, sessions, n, m.A, m.used);
    ghost var A1, u1, m1 := m.A, m.used, v.sb.maxbid;
    var more, hash;
    more, hash, m' := Remount(m, v, sessions[n], iv, key, ks);
    TookTrans(map[], {}, A1, u1, m'.A, m'.used, Needs(f, x), Needs(Replay(f, x), sessions[n]));
    TookMore(A1, u1, m'.A, m'.used, Needs(Replay(f, x), sessions[n]));
    HighestTrans(DATA_START - 1, u1, m1, m'.used, v.sb.maxbid);
    outs' := outs + more;
  }

  /** From a new file system on, with any number of mounts: what is read, and what the files are in
      the end, is the same as if all operations had been one session. */
  method Lifetime(cs: Suite, hashAll: Bytes -> Hash, sb: SB.Superblock, sessions: seq<seq<Op>>, iv: Bytes, key: Bytes,
                  ks: SB.Keys, kss: seq<SB.Keys>, k: KeyIv)
    returns (outs: seq<Bytes>, v: SB.Volume, m: Enclave)
    requires Sane(cs) && |k.iv| == |k.key| == 16 && |kss| == |sessions|
    requires |Needs(NewFiles(k), Flatten(sessions))| <= CAPACITY
    requires (forall n :: 0 <= n < |sessions| ==> AllFit(sessions[n])) && SafeUpTo(sessions, |sessions| - 1)
    ensures outs == Outputs(NewFiles(k), Flatten(sessions))
    ensures Whole(m.St(), m.A) && FilesOf(m.St(), m.A) == Replay(NewFiles(k), Flatten(sessions))
    ensures SafeUpTo(sessions, |sessions|) ==> Files(m.St(), m.A) && forall a :: a in m.A ==> Settled(m.St(), m.A, a)
    ensures Highest(DATA_START - 1, m.used, v.sb.maxbid)
  {
    hide Files, Whole, FilesOf, Settled, Replay, Outputs, Needs, Flatten, AllFit, Highest, SB.Sized, Lived;
    ghost var f := NewFiles(k);
    v, m := FirstMount(cs, hashAll, iv, key, ks, k, sb);
    LifeBegins(sessions, v, m, k);
    outs := [];
    var n := 0;
    while n < |sessions|
      invariant 0 <= n <= |sessions| && fresh(m) && fresh(v) && Lived(f, sessions, n, outs, v, m)
    {
      outs, m := NextSession(f, sessions, n, outs, v, m, iv, key, kss[n]);
      n := n + 1;
    }
    AllLived(f, sessions, outs, v, m);
  }

  lemma LifeBegins(sessions: seq<seq<Op>>, v: SB.Volume, m: Enclave, k: KeyIv)
    requires v.cs == m.cs && SB.Sized(v.sb) && v.sb.maxbid == DATA_START - 1
    requires m.fr == {} && m.A == map[] && m.used == {} && m.bcac == map[] && m.pdWb == map[] && HeadsFit(m.inodes)
    requires Files(m.St(), m.A) && Whole(m.St(), m.A) && FilesOf(m.St(), m.A) == NewFiles(k)
    ensures Lived(NewFiles(k), sessions, 0, [], v, m)
  {
    hide Files, Whole, FilesOf, AllRouted, InFiles, HeadsFit, Zoned, Settled, Replay, Outputs, Needs, Flatten,
      Quiet, Took, Highest, SB.Sized, NewFiles;
    StartsNew(m.St(), m.A);
    FlattenNothing(NewFiles(k), sessions);
    TookNothing(m.A, m.used);
    HighestOfNone(DATA_START - 1);
  }

  lemma AllLived(f: Flat, sessions: seq<seq<Op>>, outs: seq<Bytes>, v: SB.Volume, m: Enclave)
    requires Lived(f, sessions, |sessions|, outs, v, m)
    ensures outs == Outputs(f, Flatten(sessions))
    ensures Whole(m.St(), m.A) && FilesOf(m.St(), m.A) == Replay(f, Flatten(sessions))
    ensures SafeUpTo(sessions, |sessions|) ==> Files(m.St(), m.A) && forall a :: a in m.A ==> Settled(m.St(), m.A, a)
    ensures Highest(DATA_START - 1, m.used, v.sb.maxbid)
  {
    hide Files, Whole, FilesOf, AllRouted, InFiles, HeadsFit, Zoned, Settled, Replay, Outputs, Needs, Flatten,
      Quiet, Took, Highest, SB.Sized, SafeUpTo;
    assert sessions[..|sessions|] == sessions;
  }

  lemma StartsNew(s: State, A: Tree)
    requires s.bcac == map[] && s.pd == map[] && s.used == {} && A == map[]
    ensures AllRouted(s, A) && InFiles(s, A) && Zoned(s.used) && Quiet(s)
    ensures forall a :: a in A ==> Settled(s, A, a)
  {
    EmptyRouted(s, A);
  }

  lemma HighestOfNone(m: nat)
    ensures Highest(m, {}, m)
  {
  }

  lemma TookMore(A: Tree, u: set<nat>, A': Tree, u': set<nat>, P: set<Addr>)
    requires Took(A, u, A', u', P)
    ensures u <= u'
  {
  }
}
