/** Which blocks an operation allocates, and whether there is room for them.  A full data bitmap
    makes dbm_alloc panic, which never returns; so having room is what returning takes. */
module Rooms {
  import opened Layout
  import opened Blocks
  import opened Merkle
  import opened Carrying

  // Number of data blocks the bitmaps can hand out.
  const CAPACITY := 8 * BLK_SZ * BITMAP_CNT

  /** The data blocks that are not in use. */
  ghost function Free(u: set<nat>): set<nat> {
    set b | DATA_START <= b < DATA_START + CAPACITY && b !in u
  }

  /** There are enough free blocks for what the tree lacks of the addresses P. */
  ghost predicate Room(A: Tree, u: set<nat>, P: set<Addr>) {
    |P - A.Keys| <= |Free(u)|
  }

  /** What is new in use was free, and lies below all that is still free. */
  ghost predicate Drawn(u: set<nat>, u': set<nat>) {
    u <= u' && forall b :: b in u' ==> b in u || (b in Free(u) && forall c :: c in Free(u') ==> b < c)
  }

  // All blocks in use are data blocks that the bitmaps cover.
  ghost predicate Zoned(u: set<nat>) {
    forall b :: b in u ==> DATA_START <= b < DATA_START + CAPACITY
  }

  lemma TookZoned(A: Tree, u: set<nat>, A': Tree, u': set<nat>, P: set<Addr>)
    requires Took(A, u, A', u', P) && Zoned(u)
    ensures Zoned(u')
  {
  }

  /** The tree has grown by exactly what it lacked of the addresses P, one free block for each. */
  ghost predicate Took(A: Tree, u: set<nat>, A': Tree, u': set<nat>, P: set<Addr>) {
    A'.Keys == A.Keys + P && |Free(u')| == |Free(u)| - |P - A.Keys| && (P <= A.Keys ==> u' == u) && Drawn(u, u')
  }

  lemma {:induction false} RangeSize(n: nat) returns (r: set<nat>)
    ensures forall b :: b in r <==> DATA_START <= b < DATA_START + n
    ensures |r| == n
  {
    if n == 0 {
      r := {};
    } else {
      r := RangeSize(n - 1);
      r := r + {DATA_START + n - 1};
    }
  }

  lemma FreeUnused(u: set<nat>, b: nat)
    requires b in Free(u)
    ensures b !in u
  {
  }

  lemma AllFree()
    ensures |Free({})| == CAPACITY
  {
    var r := RangeSize(CAPACITY);
    assert r == Free({});
  }

  lemma TookNothing(A: Tree, u: set<nat>)
    ensures Took(A, u, A, u, {})
  {
    var none: set<Addr> := {};
    assert none - A.Keys == none && A.Keys + none == A.Keys;
  }

  // The block was there already.
  lemma TookPresent(A: Tree, u: set<nat>, c: Addr)
    requires c in A
    ensures Took(A, u, A, u, {c})
  {
    assert {c} - A.Keys == {};
  }

  // Nothing was lacking.
  lemma TookPresentAll(A: Tree, u: set<nat>, A': Tree, u': set<nat>, P: set<Addr>)
    requires Took(A, u, A', u', P) && P <= A.Keys
    ensures u' == u && A'.Keys == A.Keys
  {
  }

  // The least free block has been taken for it.
  lemma TookNew(A: Tree, u: set<nat>, c: Addr, nb: nat)
    requires c !in A && nb in Free(u) && forall b :: DATA_START <= b < nb ==> b in u
    ensures Took(A, u, A[c := nb], u + {nb}, {c})
  {
    hide Free;
    assert {c} - A.Keys == {c} && A.Keys + {c} == A[c := nb].Keys;
    LeastTaken(u, nb);
  }

  lemma LeastTaken(u: set<nat>, nb: nat)
    requires nb in Free(u) && forall b :: DATA_START <= b < nb ==> b in u
    ensures Drawn(u, u + {nb}) && |Free(u + {nb})| == |Free(u)| - 1
  {
    var f, g := Free(u), Free(u + {nb});
    forall b
      ensures b in g <==> b in f && b != nb
    {
    }
    assert f == g + {nb};
    forall c | c in g
      ensures nb < c
    {
    }
  }

  lemma Lacking<T>(a: set<T>, p: set<T>, q: set<T>)
    ensures a + p + q == a + (p + q) && |p + q - a| == |p - a| + |q - (a + p)|
    ensures p + q <= a ==> p <= a && q <= a + p
  {
    assert p + q - a == (p - a) + (q - (a + p));
  }

  lemma DrawnTrans(u: set<nat>, u1: set<nat>, u2: set<nat>)
    requires Drawn(u, u1) && Drawn(u1, u2)
    ensures Drawn(u, u2)
  {
    FreeFewer(u1, u2);
    forall b | b in u2 && b !in u
      ensures b in Free(u) && forall c :: c in Free(u2) ==> b < c
    {
      if b in u1 { assert b in Free(u); } else { FreeFewer(u, u1); }
    }
  }

  lemma FreeFewer(u: set<nat>, u': set<nat>)
    requires u <= u'
    ensures Free(u') <= Free(u)
  {
  }

  lemma TookTrans(A: Tree, u: set<nat>, A1: Tree, u1: set<nat>, A2: Tree, u2: set<nat>, P: set<Addr>, Q: set<Addr>)
    requires Took(A, u, A1, u1, P) && Took(A1, u1, A2, u2, Q)
    ensures Took(A, u, A2, u2, P + Q)
  {
    hide Free, Drawn;
    DrawnTrans(u, u1, u2);
    var a := A.Keys;
    assert A1.Keys == a + P && A2.Keys == a + P + Q;
    Lacking(a, P, Q);
  }

  /** There was room for W, and what has been taken belonged to W: there is still room for the
      rest. */
  lemma RoomLeft(A: Tree, u: set<nat>, A': Tree, u': set<nat>, P: set<Addr>, Q: set<Addr>, W: set<Addr>)
    requires Room(A, u, W) && Took(A, u, A', u', P) && P <= W && Q <= W
    ensures Room(A', u', Q)
  {
    assert W - A.Keys == (P - A.Keys) + (W - A'.Keys);
    assert (P - A.Keys) * (W - A'.Keys) == {};
    Smaller(Q - A'.Keys, W - A'.Keys);
  }

  lemma Smaller<T>(x: set<T>, y: set<T>)
    requires x <= y
    ensures |x| <= |y|
  {
    assert y == x + (y - x);
  }

  // Room for one address: it is there, or a block is free.
  lemma RoomForOne(A: Tree, u: set<nat>, c: Addr)
    requires Room(A, u, {c})
    ensures c in A || Free(u) != {}
  {
    if c !in A { assert {c} - A.Keys == {c}; }
  }

  // The next address of W on the way: it is there, or a block is free for it.
  lemma RoomNext(A: Tree, u: set<nat>, A': Tree, u': set<nat>, P: set<Addr>, c: Addr, W: set<Addr>)
    requires Room(A, u, W) && Took(A, u, A', u', P) && P + {c} <= W
    ensures c in A' || Free(u') != {}
  {
    hide Took, Room, Free;
    RoomLeft(A, u, A', u', P, {c}, W);
    RoomForOne(A', u', c);
  }

  // The first one.
  lemma RoomFirst(A: Tree, u: set<nat>, c: Addr, W: set<Addr>)
    requires Room(A, u, W) && c in W
    ensures c in A || Free(u) != {}
  {
    hide Took, Room, Free;
    TookNothing(A, u);
    RoomNext(A, u, A, u, {}, c, W);
  }

  // ---------- the addresses of a transfer ----------

  /** The block at c and the index blocks on the way to it. */
  ghost function Way(c: Addr): set<Addr> {
    set d | 0 < d <= |c.path| :: Addr(c.iid, c.path[..d])
  }

  lemma WayStep(c: Addr, j: nat)
    ensures Way(Child(c, j)) == Way(c) + {Child(c, j)}
  {
    var a := Child(c, j);
    assert a.path[..|a.path|] == a.path;
    forall d | 0 < d <= |c.path|
      ensures a.path[..d] == c.path[..d]
    {
    }
    forall x | x in Way(a)
      ensures x in Way(c) + {a}
    {
      var d :| 0 < d <= |a.path| && x == Addr(a.iid, a.path[..d]);
      if d <= |c.path| { assert x == Addr(c.iid, c.path[..d]); }
    }
    forall x | x in Way(c)
      ensures x in Way(a)
    {
      var d :| 0 < d <= |c.path| && x == Addr(c.iid, c.path[..d]);
      assert x == Addr(a.iid, a.path[..d]);
    }
  }

  lemma WayPrefix(a: Addr, n: nat)
    requires 0 < n <= |a.path|
    ensures Addr(a.iid, a.path[..n]) in Way(a) && Way(Addr(a.iid, a.path[..n])) <= Way(a)
  {
    var c := Addr(a.iid, a.path[..n]);
    forall x | x in Way(c)
      ensures x in Way(a)
    {
      var d :| 0 < d <= n && x == Addr(c.iid, c.path[..d]);
      assert c.path[..d] == a.path[..d];
    }
  }

  lemma WayStarts(i: nat, k: nat)
    ensures Way(Addr(i, [k])) == {Addr(i, [k])}
  {
    assert [k][..1] == [k];
  }

  /** Blocks b0 to q - 1 of file i and all index blocks on the way. */
  ghost function Ways(i: nat, b0: nat, q: nat): set<Addr>
    requires b0 <= q <= MAXBLOCKS
    decreases q
  {
    if q == b0 then {} else Ways(i, b0, q - 1) + Way(Leaf(i, q - 1))
  }

  lemma {:induction false} WaysGrow(i: nat, b0: nat, p: nat, q: nat)
    requires b0 <= p <= q <= MAXBLOCKS
    ensures Ways(i, b0, p) <= Ways(i, b0, q)
    decreases q
  {
    if p < q { WaysGrow(i, b0, p, q - 1); }
  }

  lemma WayIn(i: nat, b0: nat, p: nat, q: nat)
    requires b0 <= p < q <= MAXBLOCKS
    ensures Way(Leaf(i, p)) <= Ways(i, b0, q)
  {
    WaysGrow(i, b0, p + 1, q);
  }
}
