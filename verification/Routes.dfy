/** Every data block is cached, and waits for its hash to be written, with its true route. */
module Routes {
  import opened Layout
  import opened Blocks
  import opened Crypto
  import opened Merkle
  import opened MerkleSteps
  import opened MerkleUpdates

  // All blocks on the way to a are in the tree.
  ghost predicate HasPrefixes(A: Tree, a: Addr) {
    forall m :: 1 <= m < |a.path| ==> Addr(a.iid, a.path[..m]) in A
  }

  ghost predicate RouteOk(s: State, A: Tree, a: Addr)
    requires a in A
  {
    HasPrefixes(A, a) &&
    (IsLeaf(a) && A[a] in s.bcac ==> s.bcac[A[a]].route == TrueRoute(A, a)) &&
    (IsLeaf(a) && A[a] in s.pd ==> s.pd[A[a]].route == TrueRoute(A, a))
  }

  ghost predicate Routed(s: State, A: Tree) {
    forall a :: a in A ==> RouteOk(s, A, a)
  }

  lemma EvictRouted(s: State, A: Tree, b: nat)
    requires Routed(s, A) && b in s.bcac
    ensures Routed(WrittenBack(s, b), A)
  {
    forall a | a in A
      ensures RouteOk(WrittenBack(s, b), A, a)
    {
      assert RouteOk(s, A, a);
    }
  }

  lemma PinRouted(s: State, A: Tree, b: nat, d: int)
    requires Routed(s, A) && b in s.bcac && s.bcac[b].refcnt + d >= 0
    ensures Routed(Pinned(s, b, d), A)
  {
    forall a | a in A
      ensures RouteOk(Pinned(s, b, d), A, a)
    {
      assert RouteOk(s, A, a);
    }
  }

  lemma LoadRouted(s: State, A: Tree, fr: set<nat>, a: Addr, key: KeyIv, data: Block, route: Route)
    requires Routed(s, A) && Inv(s, A, fr) && a in A
    requires IsLeaf(a) ==> HasPrefixes(A, a) && route == TrueRoute(A, a)
    ensures Routed(Loaded(s, A[a], key, data, route), A)
  {
    forall x | x in A
      ensures RouteOk(Loaded(s, A[a], key, data, route), A, x)
    {
      assert RouteOk(s, A, x);
      assert A[x] == A[a] ==> x == a;
    }
  }

  lemma PullRouted(s: State, A: Tree, fr: set<nat>, a: Addr)
    requires Routed(s, A) && CanPull(s, A, fr, a)
    ensures Routed(Pulled(s, A, a), A)
  {
    forall x | x in A
      ensures RouteOk(Pulled(s, A, a), A, x)
    {
      assert RouteOk(s, A, x);
    }
  }

  lemma StoreRouted(s: State, A: Tree, b: nat, data: Block)
    requires Routed(s, A) && b in s.bcac
    ensures Routed(Stored(s, b, data), A)
  {
    forall x | x in A
      ensures RouteOk(Stored(s, b, data), A, x)
    {
      assert RouteOk(s, A, x);
    }
  }

  lemma ResizeRouted(s: State, A: Tree, i: nat, size: nat)
    requires Routed(s, A) && i in s.ino
    ensures Routed(Resized(s, i, size), A)
  {
    forall x | x in A
      ensures RouteOk(Resized(s, i, size), A, x)
    {
      assert RouteOk(s, A, x);
    }
  }

  lemma SameRoute(A: Tree, a: Addr, nb: nat, x: Addr)
    requires a !in A && x in A && HasPrefixes(A, x)
    ensures HasPrefixes(A[a := nb], x) && TrueRoute(A[a := nb], x) == TrueRoute(A, x)
  {
  }

  lemma GraftRouted(s: State, A: Tree, fr: set<nat>, a: Addr, nb: nat)
    requires Routed(s, A) && CanGraft(s, A, fr, a, nb)
    ensures Routed(Grafted(s, A, a, nb), A[a := nb])
  {
    var t, A' := Grafted(s, A, a, nb), A[a := nb];
    forall x | x in A'
      ensures RouteOk(t, A', x)
    {
      if x != a {
        assert RouteOk(s, A, x);
        assert A[x] in s.used;
        SameRoute(A, a, nb, x);
      } else {
        GraftPrefixes(s, A, a, nb);
      }
    }
  }

  lemma GraftPrefixes(s: State, A: Tree, a: Addr, nb: nat)
    requires Routed(s, A) && ValidPath(a.path) && (IsRoot(a) || Parent(a) in A)
    ensures HasPrefixes(A[a := nb], a)
  {
    if !IsRoot(a) {
      var p := Parent(a);
      assert RouteOk(s, A, p);
      forall m | 1 <= m < |a.path|
        ensures Addr(a.iid, a.path[..m]) in A
      {
        assert m < |p.path| ==> p.path[..m] == a.path[..m];
        assert m == |p.path| ==> p.path == a.path[..m];
      }
    }
  }
}
