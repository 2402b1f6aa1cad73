/** set_remove: exactly when relaying out the rest of the cluster leaves every key reachable. */
module SetRemoval {
  import opened SetTheory
  import opened SetGrowth

  // Every slot on the path to p is occupied, the hole f aside.
  ghost predicate Almost(t: Table, f: nat, p: nat)
    requires p < |t| && t[p].Full?
  {
    forall k :: 0 <= k < |t| && k != f && OnPath(Home(t, t[p].hash), k, p) ==> t[k].Full?
  }

  ghost predicate Crosses(t: Table, f: nat, p: nat)
    requires p < |t| && t[p].Full?
  {
    OnPath(Home(t, t[p].hash), f, p)
  }

  /** Where the hole is once the pass from slot i on has ended, the hole being f now: it moves
      to each slot whose key has the hole on its path. */
  function LastHole(t: Table, i: nat, f: nat): (g: nat)
    requires f < i <= |t|
    ensures g < |t|
    decreases |t| - i
  {
    if i == |t| || t[i].Empty? then f
    else
      var h := t[i].hash % |t|;
      LastHole(t, i + 1, if h <= f || i < h then i else f)
  }

  // The pass that began by emptying slot x of t0 has reached slot i.  e is empty and not the hole.
  ghost predicate Passing(t0: Table, t: Table, x: nat, e: nat, i: nat, f: nat) {
    |t| == |t0| && x <= f < i <= |t| && t[f].Empty? && Unique(t) &&
    e < |t| && t[e].Empty? && (e < x || i <= e) &&
    (forall k :: x <= k < i && k != f ==> t[k].Full?) &&
    (forall k :: 0 <= k < |t| && (k < x || i <= k) ==> t[k] == t0[k]) &&
    (forall p :: 0 <= p < |t| && t[p].Full? ==> Almost(t, f, p)) &&
    (forall p :: x <= p < i && t[p].Full? ==> !Crosses(t, f, p))
  }

  // A round moves the node of slot i into the hole exactly if the hole is on its path.
  lemma RoundMoves(t: Table, i: nat, f: nat)
    requires i < |t| && t[i].Full? && Unique(t) && f < i && t[f].Empty? && Almost(t, f, i)
    ensures Resettle(t, i) == if Crosses(t, f, i) then t[f := t[i]][i := Empty] else t
  {
    Destination(t, i);
    var h := Home(t, t[i].hash);
    var j := GetIndex(t, t[i].key, t[i].hash).i;
    ProbeOfPath(t, h, j);
    assert j != i ==> OnPath(h, j, i);
  }

  lemma RoundKeeps(t0: Table, t: Table, x: nat, e: nat, i: nat, f: nat, p: nat)
    requires Passing(t0, t, x, e, i, f) && i < |t| && t[i].Full? && Crosses(t, f, i)
    requires p < |t| && p != i && t[p].Full?
    ensures var u := t[f := t[i]][i := Empty]; Almost(u, i, p) && (x <= p < i ==> !Crosses(u, i, p))
  {
    assert Almost(t, f, p);
  }

  lemma Round(t0: Table, t: Table, x: nat, e: nat, i: nat, f: nat)
    requires Passing(t0, t, x, e, i, f) && i < |t| && t[i].Full?
    ensures Passing(t0, Resettle(t, i), x, e, i + 1, if Crosses(t, f, i) then i else f)
  {
    RoundMoves(t, i, f);
    ResettleKeeps(t, i);
    if Crosses(t, f, i) {
      var u := t[f := t[i]][i := Empty];
      forall p | 0 <= p < |u| && u[p].Full?
        ensures Almost(u, i, p) && (x <= p < i ==> !Crosses(u, i, p))
      {
        if p == f {
          assert Almost(t, f, i);
        } else {
          RoundKeeps(t0, t, x, e, i, f, p);
        }
      }
    }
  }

  /** What a caller can check beforehand: the cluster of slot x runs to the end of the table,
      and a key that wraps around has its home at or before the last hole. */
  ghost predicate LosesKey(t: Table, x: nat)
    requires x < |t|
  {
    Occ(t, x + 1, |t|) && WrapsOver(t, x, LastHole(t, x + 1, x))
  }

  // A key in front of slot x has wrapped around from a home at or before slot g.
  ghost predicate WrapsOver(t: Table, x: nat, g: nat)
    requires x < |t|
  {
    exists p :: 0 <= p < x && t[p].Full? && p < Home(t, t[p].hash) <= g
  }

  lemma ReachableIffNoCrossing(t: Table, f: nat)
    requires f < |t| && t[f].Empty?
    requires forall p :: 0 <= p < |t| && t[p].Full? ==> Almost(t, f, p)
    ensures Reachable(t) <==> forall p :: 0 <= p < |t| && t[p].Full? ==> !Crosses(t, f, p)
  {
    forall p | 0 <= p < |t| && t[p].Full?
      ensures Probe(t, Home(t, t[p].hash), p) <==> !Crosses(t, f, p)
    {
      ProbeOfPath(t, Home(t, t[p].hash), p);
      assert Almost(t, f, p);
    }
  }

  // The pass has come to an empty slot: no path crosses the hole.
  lemma StopsShort(t0: Table, t: Table, x: nat, e: nat, i: nat, f: nat)
    requires Passing(t0, t, x, e, i, f) && i < |t| && t[i].Empty?
    ensures Reachable(t)
  {
    ReachableIffNoCrossing(t, f);
    forall p | 0 <= p < |t| && t[p].Full?
      ensures !Crosses(t, f, p)
    {
      assert Almost(t, f, p);
    }
  }

  // The pass has come to the end of the table.
  lemma RunsOut(t0: Table, t: Table, x: nat, e: nat, f: nat)
    requires Passing(t0, t, x, e, |t|, f)
    ensures Reachable(t) <==> !WrapsOver(t0, x, f)
  {
    ReachableIffNoCrossing(t, f);
    if !Reachable(t) {
      var p :| 0 <= p < |t| && t[p].Full? && Crosses(t, f, p);
      assert p < x;
    }
    if p :| 0 <= p < x && t0[p].Full? && p < Home(t0, t0[p].hash) <= f {
      assert t[p] == t0[p];
      assert Crosses(t, f, p);
    }
  }

  lemma {:induction false} PassKeeps(t: Table, i: nat, start: nat, stop: bool)
    requires i <= |t| && Unique(t)
    ensures var u := Relayout(t, i, start, stop);
      Unique(u) && Stored(u) == Stored(t) && Count(u) == Count(t)
    decreases |t| - i
  {
    if i < |t| && t[i].Full? {
      ResettleKeeps(t, i);
      PassKeeps(Resettle(t, i), i + 1, start, stop);
    } else if i < |t| && !(stop && i != start) {
      PassKeeps(t, i + 1, start, stop);
    }
  }

  // The pass is at the end of the table, or at an empty slot.
  lemma PassEnds(t0: Table, t: Table, x: nat, e: nat, i: nat, f: nat)
    requires Passing(t0, t, x, e, i, f) && (i == |t| || t[i].Empty?)
    ensures |t0| == |t| && (Reachable(Relayout(t, i, x, true)) <==> !(Occ(t0, i, |t|) && WrapsOver(t0, x, LastHole(t0, i, f))))
  {
    assert |t0| == |t| && i <= |t| && (i < |t| ==> t0[i] == t[i]);
    hide Passing, Reachable, WrapsOver;
    if i == |t| {
      RunsOut(t0, t, x, e, f);
    } else {
      StopsShort(t0, t, x, e, i, f);
    }
  }

  // The pass goes over a full slot: table u and last hole g afterwards.
  lemma PassStep(t0: Table, t: Table, x: nat, e: nat, i: nat, f: nat) returns (u: Table, g: nat)
    requires Passing(t0, t, x, e, i, f) && i < |t| && t[i].Full?
    ensures |t0| == |t| == |u| && Passing(t0, u, x, e, i + 1, g) && g < i + 1
    ensures Relayout(t, i, x, true) == Relayout(u, i + 1, x, true)
    ensures LastHole(t0, i, f) == LastHole(t0, i + 1, g) && (Occ(t0, i, |t|) <==> Occ(t0, i + 1, |t|))
  {
    Round(t0, t, x, e, i, f);
    u, g := Resettle(t, i), if Crosses(t, f, i) then i else f;
  }

  lemma PassSizes(t0: Table, t: Table, x: nat, e: nat, i: nat, f: nat)
    requires Passing(t0, t, x, e, i, f)
    ensures |t0| == |t| && f < i <= |t|
  {
  }

  lemma {:induction false} Pass(t0: Table, t: Table, x: nat, e: nat, i: nat, f: nat)
    requires Passing(t0, t, x, e, i, f)
    ensures Reachable(Relayout(t, i, x, true)) <==> !(Occ(t0, i, |t|) && WrapsOver(t0, x, LastHole(t0, i, f)))
    decreases |t| - i
  {
    hide Passing, Reachable, WrapsOver, Occ, Relayout, LastHole;
    PassSizes(t0, t, x, e, i, f);
    if i == |t| || t[i].Empty? {
      PassEnds(t0, t, x, e, i, f);
    } else {
      var u, g := PassStep(t0, t, x, e, i, f);
      Pass(t0, u, x, e, i + 1, g);
    }
  }

  lemma PassBegins(t: Table, x: nat, e: nat)
    requires Reachable(t) && Unique(t) && x < |t| && t[x].Full? && e < |t| && t[e].Empty?
    ensures Passing(t[x := Empty], t[x := Empty], x, e, x + 1, x)
  {
    var w := t[x := Empty];
    forall p | 0 <= p < |w| && w[p].Full?
      ensures Almost(w, x, p)
    {
      ProbeOfPath(t, Home(t, t[p].hash), p);
    }
  }

  /** Emptying slot x and relaying out from there removes exactly that key. */
  lemma Removed(t: Table, x: nat)
    requires Unique(t) && x < |t| && t[x].Full?
    ensures var u := Relayout(t[x := Empty], x, x, true);
      |u| == |t| && Unique(u) && Stored(u) == Stored(t) - {t[x]} && Count(u) == Count(t) - 1
  {
    CountUpdate(t, x, Empty);
    StoredWithout(t, x);
    PassKeeps(t[x := Empty], x, x, true);
  }

  /** Every other key stays reachable if and only if LosesKey does not hold beforehand. */
  lemma RemovedReachable(t: Table, x: nat)
    requires Reachable(t) && Unique(t) && Count(t) < |t| && x < |t| && t[x].Full?
    ensures Reachable(Relayout(t[x := Empty], x, x, true)) <==> !LosesKey(t, x)
  {
    var w := t[x := Empty];
    var e := Pigeonhole(t, 0);
    PassBegins(t, x, e);
    Pass(w, w, x, e, x + 1, x);
    SameScan(t, x, x + 1, x);
    SameWraps(t, x, LastHole(t, x + 1, x));
    SkipsStart(t, x);
  }

  lemma SkipsStart(t: Table, x: nat)
    requires x < |t|
    ensures Relayout(t[x := Empty], x, x, true) == Relayout(t[x := Empty], x + 1, x, true)
    ensures Occ(t[x := Empty], x + 1, |t|) <==> Occ(t, x + 1, |t|)
  {
    var w := t[x := Empty];
    assert forall k :: x + 1 <= k < |t| ==> w[k] == t[k];
  }

  lemma SameWraps(t: Table, x: nat, g: nat)
    requires x < |t|
    ensures WrapsOver(t[x := Empty], x, g) <==> WrapsOver(t, x, g)
  {
    var w := t[x := Empty];
    assert forall p :: 0 <= p < x ==> w[p] == t[p];
    if WrapsOver(w, x, g) {
      var p :| 0 <= p < x && w[p].Full? && p < Home(w, w[p].hash) <= g;
      assert 0 <= p < x && t[p].Full? && p < Home(t, t[p].hash) <= g;
    }
    if WrapsOver(t, x, g) {
      var p :| 0 <= p < x && t[p].Full? && p < Home(t, t[p].hash) <= g;
      assert 0 <= p < x && w[p].Full? && p < Home(w, w[p].hash) <= g;
    }
  }

  lemma {:induction false} SameScan(t: Table, x: nat, i: nat, f: nat)
    requires x < |t| && f < i <= |t| && x < i
    ensures LastHole(t[x := Empty], i, f) == LastHole(t, i, f)
    decreases |t| - i
  {
    if i < |t| && t[i].Full? {
      var h := t[i].hash % |t|;
      SameScan(t, x, i + 1, if h <= f || i < h then i else f);
    }
  }

  // Two keys with the same home in the last slot: removing the first hides the second.
  lemma RemovalCanLoseAKey()
    ensures var t := [Full("b", 3), Empty, Empty, Full("a", 3)];
      Reachable(t) && Unique(t) && LosesKey(t, 3) &&
      var u := Relayout(t[3 := Empty], 3, 3, true);
      u == [Full("b", 3), Empty, Empty, Empty] && GetIndex(u, "b", 3) == Free(3)
  {
    var t := [Full("b", 3), Empty, Empty, Full("a", 3)];
    assert "a"[0] != "b"[0];
    assert t[0].Full? && 0 < Home(t, t[0].hash) <= LastHole(t, 4, 3);
    var w := t[3 := Empty];
    assert Relayout(w, 3, 3, true) == Relayout(w, 4, 3, true) == w;
  }

  lemma StoredWithout(t: Table, x: nat)
    requires Unique(t) && x < |t| && t[x].Full?
    ensures Stored(t[x := Empty]) == Stored(t) - {t[x]}
  {
    var w := t[x := Empty];
    forall s | s in Stored(w)
      ensures s in Stored(t) - {t[x]}
    {
      var p :| 0 <= p < |w| && w[p].Full? && w[p] == s;
      assert t[p] == s;
    }
    forall s | s in Stored(t) - {t[x]}
      ensures s in Stored(w)
    {
      var p :| 0 <= p < |t| && t[p].Full? && t[p] == s;
      assert w[p] == s;
    }
  }
}
