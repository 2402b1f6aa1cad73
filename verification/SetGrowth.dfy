/** __relayout_nodes, and why growing a table in place is correct. */
module SetGrowth {
  import opened SetTheory

  ghost function Stored(t: Table): set<Slot> {
    set p | 0 <= p < |t| && t[p].Full? :: t[p]
  }

  // One round: the node in slot i goes to the first free slot on its path, or stays.
  function Resettle(t: Table, i: nat): (u: Table)
    requires i < |t| && t[i].Full?
    ensures |u| == |t|
  {
    var r := GetIndex(t, t[i].key, t[i].hash);
    if r.Circular? || r.i == i then t else t[r.i := t[i]][i := Empty]
  }

  /** The pass from slot i on.  With stop, it ends at the first empty slot after start. */
  function Relayout(t: Table, i: nat, start: nat, stop: bool): (u: Table)
    requires i <= |t|
    ensures |u| == |t|
    decreases |t| - i
  {
    if i == |t| then t
    else if t[i].Full? then Relayout(Resettle(t, i), i + 1, start, stop)
    else if stop && i != start then t
    else Relayout(t, i + 1, start, stop)
  }

  // Where the node in slot i goes: no empty slot lies before that place on its path.
  lemma Destination(t: Table, i: nat)
    requires i < |t| && t[i].Full? && Unique(t)
    ensures var r := GetIndex(t, t[i].key, t[i].hash); var h := Home(t, t[i].hash);
      (r == At(i) || (r.Free? && t[r.i].Empty? && !OnPath(h, i, r.i))) && Probe(t, h, r.i)
  {
    var h := Home(t, t[i].hash);
    SeekSpec(t, t[i].key, t[i].hash, h, 0);
    var r := GetIndex(t, t[i].key, t[i].hash);
    assert Holds(t[i], t[i].key, t[i].hash);
    assert !r.Circular?;
    if r.At? {
      assert t[r.i].key == t[i].key;
    }
    forall k | 0 <= k < |t| && OnPath(h, k, r.i)
      ensures t[k].Full?
    {
    }
    ProbeOfPath(t, h, r.i);
  }

  lemma ProbeOfPath(t: Table, h: nat, p: nat)
    requires h < |t| && p < |t|
    ensures Probe(t, h, p) <==> forall k :: 0 <= k < |t| && OnPath(h, k, p) ==> t[k].Full?
  {
    if Probe(t, h, p) {
      forall k | 0 <= k < |t| && OnPath(h, k, p)
        ensures t[k].Full?
      {
      }
    }
    if forall k :: 0 <= k < |t| && OnPath(h, k, p) ==> t[k].Full? {
      forall k | 0 <= k < |t| && (if h <= p then h <= k < p else h <= k || k < p)
        ensures t[k].Full?
      {
        assert OnPath(h, k, p);
      }
    }
  }

  // A round moves a node; it neither adds nor drops one.
  lemma ResettleKeeps(t: Table, i: nat)
    requires i < |t| && t[i].Full? && Unique(t)
    ensures var u := Resettle(t, i); Unique(u) && Count(u) == Count(t) && Stored(u) == Stored(t)
  {
    Destination(t, i);
    var r := GetIndex(t, t[i].key, t[i].hash);
    if r.i != i {
      var u := t[r.i := t[i]];
      CountUpdate(t, r.i, t[i]);
      CountUpdate(u, i, Empty);
      MoveKeeps(t, i, r.i);
    }
  }

  lemma MoveKeeps(t: Table, i: nat, j: nat)
    requires i < |t| && j < |t| && i != j && t[i].Full? && t[j].Empty? && Unique(t)
    ensures var u := t[j := t[i]][i := Empty]; Unique(u) && Stored(u) == Stored(t)
  {
    var u := t[j := t[i]][i := Empty];
    forall s | s in Stored(t)
      ensures s in Stored(u)
    {
      var p :| 0 <= p < |t| && t[p].Full? && t[p] == s;
      assert u[if p == i then j else p] == s;
    }
    forall s | s in Stored(u)
      ensures s in Stored(t)
    {
      var p :| 0 <= p < |u| && u[p].Full? && u[p] == s;
      assert t[if p == j then i else p] == s;
    }
  }

  // ---------- growth: a table of n slots followed by n empty ones ----------

  // First half of the pass, slots below i done.  A key that has been passed sits at the end
  // of an occupied run from its home, or wraps around with its home in the upper half.
  // A key in the upper half has an occupied run behind it, within that half.
  ghost predicate LowerOk(t: Table, n: nat, i: nat, p: nat)
    requires |t| == 2 * n && p < |t| && t[p].Full? && i <= n
  {
    var h := Home(t, t[p].hash);
    (p < i ==> (h <= p && Occ(t, h, p)) || (n <= h && Occ(t, h, |t|) && Occ(t, 0, p))) &&
    (n <= p ==> if n <= h then h <= p && Occ(t, h, p) else Occ(t, n, p))
  }

  ghost predicate LowerDone(t: Table, n: nat, i: nat) {
    |t| == 2 * n && 0 < n && i <= n && Unique(t) && Count(t) < n &&
    forall p :: 0 <= p < |t| && t[p].Full? ==> LowerOk(t, n, i, p)
  }

  // The node of slot i, wherever the round has put it.
  lemma LowerMoved(t: Table, n: nat, i: nat)
    requires LowerDone(t, n, i) && i < n && t[i].Full?
    ensures var r := GetIndex(t, t[i].key, t[i].hash); var u := Resettle(t, i);
      !r.Circular? && u[r.i] == t[i] && LowerOk(u, n, i + 1, r.i)
  {
    Destination(t, i);
    var e := Pigeonhole(t, n);
    var h := Home(t, t[i].hash);
    var j := GetIndex(t, t[i].key, t[i].hash).i;
    // the empty slot e of the upper half stops a probe that starts between i and e
    assert i < h <= e ==> h <= j <= e;
  }

  // All other nodes: the slot left empty is on none of their runs.
  lemma LowerOthers(t: Table, n: nat, i: nat, j: nat, p: nat)
    requires LowerDone(t, n, i) && i < n && t[i].Full? && j < |t| && t[j].Empty?
    requires p < |t| && t[p].Full? && p != i
    ensures LowerOk(t[j := t[i]][i := Empty], n, i + 1, p)
  {
    assert LowerOk(t, n, i, p);
  }

  lemma LowerStep(t: Table, n: nat, i: nat)
    requires LowerDone(t, n, i) && i < n && t[i].Full?
    ensures LowerDone(Resettle(t, i), n, i + 1)
  {
    Destination(t, i);
    ResettleKeeps(t, i);
    LowerMoved(t, n, i);
    var j := GetIndex(t, t[i].key, t[i].hash).i;
    var u := Resettle(t, i);
    forall p | 0 <= p < |u| && u[p].Full?
      ensures LowerOk(u, n, i + 1, p)
    {
      if p != j && j != i {
        LowerOthers(t, n, i, j, p);
      } else if p != j {
        assert LowerOk(t, n, i, p);
      }
    }
  }

  // Second half, e being an empty slot of the upper half.  No probe path crosses e.
  ghost predicate UpperOk(t: Table, e: nat, i: nat, p: nat)
    requires p < |t| && t[p].Full?
  {
    var h := Home(t, t[p].hash);
    (p < i && p < e ==> (h <= p && Occ(t, h, p)) || (e < h && Occ(t, h, |t|) && Occ(t, 0, p))) &&
    (i <= p < e ==> h <= p) &&
    (e < p ==> e < h <= p && Occ(t, h, p))
  }

  ghost predicate UpperDone(t: Table, n: nat, e: nat, i: nat) {
    |t| == 2 * n && 0 < n <= e < |t| && n <= i <= |t| && t[e].Empty? && Unique(t) &&
    forall p :: 0 <= p < |t| && t[p].Full? ==> UpperOk(t, e, i, p)
  }

  lemma Halfway(t: Table, n: nat) returns (e: nat)
    requires LowerDone(t, n, n)
    ensures UpperDone(t, n, e, n)
  {
    e := Pigeonhole(t, n);
    forall p | 0 <= p < |t| && t[p].Full?
      ensures UpperOk(t, e, n, p)
    {
      assert LowerOk(t, n, n, p);
    }
  }

  lemma UpperOthers(t: Table, n: nat, e: nat, i: nat, j: nat, p: nat)
    requires UpperDone(t, n, e, i) && i < e && t[i].Full? && j < |t| && t[j].Empty?
    requires p < |t| && t[p].Full? && p != i
    ensures UpperOk(t[j := t[i]][i := Empty], e, i + 1, p)
  {
    assert UpperOk(t, e, i, p);
  }

  lemma UpperStep(t: Table, n: nat, e: nat, i: nat)
    requires UpperDone(t, n, e, i) && i < |t| && t[i].Full?
    ensures UpperDone(Resettle(t, i), n, e, i + 1)
  {
    Destination(t, i);
    ResettleKeeps(t, i);
    assert UpperOk(t, e, i, i);
    var j := GetIndex(t, t[i].key, t[i].hash).i;
    var u := Resettle(t, i);
    assert i < e ==> j <= i;
    assert e < i ==> j == i;
    forall p | 0 <= p < |u| && u[p].Full?
      ensures UpperOk(u, e, i + 1, p)
    {
      if p != j && j != i {
        UpperOthers(t, n, e, i, j, p);
      } else if p != j {
        assert UpperOk(t, e, i, p);
      }
    }
  }

  lemma {:induction false} UpperPass(t: Table, n: nat, e: nat, i: nat)
    requires UpperDone(t, n, e, i)
    ensures var u := Relayout(t, i, 0, false);
      Reachable(u) && Unique(u) && Stored(u) == Stored(t) && Count(u) == Count(t)
    decreases |t| - i
  {
    if i < |t| {
      if t[i].Full? {
        UpperStep(t, n, e, i);
        ResettleKeeps(t, i);
        UpperPass(Resettle(t, i), n, e, i + 1);
      } else {
        UpperPass(t, n, e, i + 1);
      }
    }
  }

  lemma {:induction false} LowerPass(t: Table, n: nat, i: nat)
    requires LowerDone(t, n, i)
    ensures var u := Relayout(t, i, 0, false);
      Reachable(u) && Unique(u) && Stored(u) == Stored(t) && Count(u) == Count(t)
    decreases n - i
  {
    if i == n {
      var e := Halfway(t, n);
      UpperPass(t, n, e, n);
    } else if t[i].Full? {
      LowerStep(t, n, i);
      ResettleKeeps(t, i);
      LowerPass(Resettle(t, i), n, i + 1);
    } else {
      LowerPass(t, n, i + 1);
    }
  }

  ghost function Empties(n: nat): Table {
    seq(n, _ => Empty)
  }

  /** Doubling a table and relaying it out in place keeps exactly the same nodes, each once,
      and makes every one of them reachable from its new home. */
  lemma Grown(t: Table)
    requires Unique(t) && Count(t) < |t|
    ensures var u := Relayout(t + Empties(|t|), 0, 0, false);
      |u| == 2 * |t| && Reachable(u) && Unique(u) && Stored(u) == Stored(t) && Count(u) == Count(t)
  {
    var w := t + Empties(|t|);
    CountEmpty(t, Empties(|t|));
    assert LowerDone(w, |t|, 0);
    LowerPass(w, |t|, 0);
    assert Stored(w) == Stored(t) by {
      forall s | s in Stored(t) ensures s in Stored(w) {
        var p :| 0 <= p < |t| && t[p].Full? && t[p] == s;
        assert w[p] == s;
      }
    }
  }
}
