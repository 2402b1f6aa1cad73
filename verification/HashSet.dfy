/** set_t: the open-addressing hash set, growing in place. */
module HashSets {
  import opened SetTheory
  import opened SetGrowth
  import opened SetRemoval

  const SET_TRUE := 0
  const SET_FALSE := -1
  const SET_CIRCULAR_ERROR := -3
  const SET_OCCUPIED_ERROR := -4
  const SET_ALREADY_PRESENT := 1
  const SET_EQUAL := 0
  const SET_LEFT_GREATER := 1
  const SET_UNEQUAL := 2
  const SET_RIGHT_GREATER := 3

  ghost predicate Hashed(t: Table, hash: Key -> nat) {
    forall s :: s in Stored(t) ==> s.hash == hash(s.key)
  }

  // A table as the set operations leave it: all keys reachable, at most a quarter full but for one key.
  ghost predicate Sound(t: Table, used: nat, hash: Key -> nat) {
    |t| >= 2 && Reachable(t) && Unique(t) && used == Count(t) && 4 * (used - 1) <= |t| && Hashed(t, hash)
  }

  lemma KeysOfStored(t: Table)
    ensures Keys(t) == set s | s in Stored(t) :: s.key
  {
    forall k | k in Keys(t)
      ensures k in set s | s in Stored(t) :: s.key
    {
      var p :| 0 <= p < |t| && t[p].Full? && t[p].key == k;
      assert t[p] in Stored(t);
    }
  }

  /** In a sound table there is a free slot, so a probe finds a key exactly if it is stored and
      always ends. */
  lemma ProbeIsExact(t: Table, used: nat, hash: Key -> nat, key: Key)
    requires Sound(t, used, hash)
    ensures used < |t|
    ensures var r := GetIndex(t, key, hash(key));
      (r.At? <==> key in Keys(t)) && !r.Circular? && (r.At? ==> t[r.i].Full? && t[r.i].key == key) && (r.Free? ==> t[r.i].Empty?)
  {
    SeekSpec(t, key, hash(key), Home(t, hash(key)), 0);
    var e := Pigeonhole(t, 0);
    if key in Keys(t) {
      var p :| 0 <= p < |t| && t[p].Full? && t[p].key == key;
      assert t[p] in Stored(t);
      ProbeOfPath(t, Home(t, t[p].hash), p);
      var r := GetIndex(t, key, hash(key));
      assert Holds(t[p], key, hash(key));
    }
  }

  // Storing a new key in the slot its probe ended at.
  lemma Assigned(t: Table, used: nat, hash: Key -> nat, key: Key)
    requires Reachable(t) && Unique(t) && used == Count(t) && Hashed(t, hash) && |t| >= 2 && 4 * used <= |t|
    requires key !in Keys(t) && GetIndex(t, key, hash(key)).Free?
    ensures var u := t[GetIndex(t, key, hash(key)).i := Full(key, hash(key))];
      Sound(u, used + 1, hash) && Keys(u) == Keys(t) + {key}
  {
    var i := GetIndex(t, key, hash(key)).i;
    SeekSpec(t, key, hash(key), Home(t, hash(key)), 0);
    var u := t[i := Full(key, hash(key))];
    CountUpdate(t, i, Full(key, hash(key)));
    AssignedReachable(t, i, key, hash(key));
    AssignedUnique(t, i, key, hash(key));
  }

  lemma AssignedReachable(t: Table, i: nat, key: Key, h: nat)
    requires Reachable(t) && i < |t| && t[i].Empty?
    requires forall j :: 0 <= j < |t| && OnPath(Home(t, h), j, i) ==> t[j].Full?
    ensures Reachable(t[i := Full(key, h)])
  {
    var u := t[i := Full(key, h)];
    forall p | 0 <= p < |u| && u[p].Full?
      ensures Probe(u, Home(u, u[p].hash), p)
    {
      if p == i {
        ProbeOfPath(t, Home(t, h), i);
      } else {
        assert Probe(t, Home(t, t[p].hash), p);
      }
    }
  }

  lemma AssignedUnique(t: Table, i: nat, key: Key, h: nat)
    requires Unique(t) && i < |t| && t[i].Empty? && key !in Keys(t)
    ensures var u := t[i := Full(key, h)];
      Unique(u) && Stored(u) == Stored(t) + {Full(key, h)} && Keys(u) == Keys(t) + {key}
  {
    var u := t[i := Full(key, h)];
    forall s | s in Stored(t) ensures s in Stored(u) {
      var p :| 0 <= p < |t| && t[p].Full? && t[p] == s;
      assert u[p] == s;
    }
    assert u[i] in Stored(u);
    KeysOfStored(t);
    KeysOfStored(u);
  }

  // The doubled and relaid-out table.
  lemma GrownIsSound(t: Table, used: nat, hash: Key -> nat)
    requires Sound(t, used, hash)
    ensures var u := Relayout(t + Empties(|t|), 0, 0, false);
      |u| == 2 * |t| && Sound(u, used, hash) && Keys(u) == Keys(t)
  {
    Grown(t);
    KeysOfStored(t);
    KeysOfStored(Relayout(t + Empties(|t|), 0, 0, false));
  }

  lemma EmptyIsSound(slots: nat, hash: Key -> nat)
    requires slots >= 2
    ensures Sound(Empties(slots), 0, hash) && Keys(Empties(slots)) == {}
  {
    var t := Empties(slots);
    CountEmpty([], t);
    assert [] + t == t;
  }

  class HashSet {
    var nodes: array<Slot>
    var used: nat
    const hash: Key -> nat

    ghost predicate Valid()
      reads this, nodes
    {
      Sound(nodes[..], used, hash)
    }

    ghost function View(): set<Key>
      reads this, nodes
    {
      Keys(nodes[..])
    }

    /** set_init_alt */
    constructor (slots: nat, hash: Key -> nat)
      requires slots >= 2
      ensures Valid() && fresh(nodes) && View() == {} && this.hash == hash
    {
      nodes := new Slot[slots](_ => Empty);
      used := 0;
      this.hash := hash;
      new;
      assert nodes[..] == Empties(slots);
      EmptyIsSound(slots, hash);
    }

    /** __get_index */
    method GetSlot(key: Key, h: nat) returns (r: Found)
      requires nodes.Length > 0
      ensures r == GetIndex(nodes[..], key, h)
    {
      var start := h % nodes.Length;
      var i := start;
      ghost var k := 0;
      while true
        invariant k < nodes.Length && i == After(nodes.Length, start, k)
        invariant GetIndex(nodes[..], key, h) == Seek(nodes[..], key, h, i, k)
        decreases nodes.Length - k
      {
        if nodes[i].Empty? {
          return Free(i);
        } else if Holds(nodes[i], key, h) {
          return At(i);
        }
        i, k := i + 1, k + 1;
        if i == nodes.Length {
          i := 0;
        }
        if i == start {
          return Circular;
        }
      }
    }

    /** set_contains */
    method Contains(key: Key) returns (rc: int)
      requires Valid()
      ensures rc == if key in View() then SET_TRUE else SET_FALSE
    {
      rc := ContainsHashed(key, hash(key));
    }

    /** __set_contains, with the hash of the key at hand */
    method ContainsHashed(key: Key, h: nat) returns (rc: int)
      requires Valid() && h == hash(key)
      ensures rc == if key in View() then SET_TRUE else SET_FALSE
    {
      ProbeIsExact(nodes[..], used, hash, key);
      var r := GetSlot(key, h);
      rc := match r case At(_) => SET_TRUE case Free(_) => SET_FALSE case Circular => SET_CIRCULAR_ERROR;
    }

    // One stored node moves to where a probe for its key would put it.
    method ResettleSlot(i: nat)
      requires i < nodes.Length && Unique(nodes[..]) && nodes[i].Full?
      modifies nodes
      ensures Unique(nodes[..]) && nodes[..] == Resettle(old(nodes[..]), i)
    {
      hide Unique, GetIndex;
      Destination(nodes[..], i);
      ResettleKeeps(nodes[..], i);
      ghost var t := nodes[..];
      var r := GetSlot(nodes[i].key, nodes[i].hash);
      if r.i != i {
        nodes[r.i] := nodes[i];
        nodes[i] := Empty;
      }
      assert nodes[..] == Resettle(t, i);
    }

    /** __relayout_nodes */
    method RelayoutNodes(start: nat, stop: bool)
      requires 0 < nodes.Length && start <= nodes.Length && Unique(nodes[..])
      modifies nodes
      ensures nodes[..] == Relayout(old(nodes[..]), start, start, stop)
    {
      hide Unique, Resettle;
      var i := start;
      while i < nodes.Length
        invariant start <= i <= nodes.Length && Unique(nodes[..])
        invariant Relayout(nodes[..], i, start, stop) == Relayout(old(nodes[..]), start, start, stop)
      {
        if nodes[i].Full? {
          ResettleSlot(i);
        } else if stop && i != start {
          return;
        }
        i := i + 1;
      }
    }

    /** The growth step of __set_add. */
    method Grow()
      requires Valid()
      modifies this`nodes
      ensures Valid() && View() == old(View()) && fresh(nodes) && nodes.Length == 2 * old(nodes.Length)
    {
      GrownIsSound(nodes[..], used, hash);
      var n := nodes.Length;
      var tmp := new Slot[2 * n](i requires 0 <= i < 2 * n reads this, nodes => if i < nodes.Length then nodes[i] else Empty);
      assert tmp[..] == nodes[..] + Empties(n);
      nodes := tmp;
      DoubledIsUnique(old(nodes[..]));
      RelayoutNodes(0, false);
    }

    /** set_add */
    method Add(key: Key) returns (rc: int)
      requires Valid()
      modifies this, nodes
      ensures Valid() && (nodes == old(nodes) || fresh(nodes))
      ensures View() == old(View()) + {key}
      ensures rc == if key in old(View()) then SET_ALREADY_PRESENT else SET_TRUE
      ensures used == |View()|
      ensures nodes.Length == if key !in old(View()) && 4 * old(used) > old(nodes.Length) then 2 * old(nodes.Length) else old(nodes.Length)
    {
      rc := AddHashed(key, hash(key));
    }

    /** __set_add */
    method AddHashed(key: Key, h: nat) returns (rc: int)
      requires Valid() && h == hash(key)
      modifies this, nodes
      ensures Valid() && (nodes == old(nodes) || fresh(nodes))
      ensures View() == old(View()) + {key}
      ensures rc == if key in old(View()) then SET_ALREADY_PRESENT else SET_TRUE
      ensures used == |View()|
      ensures nodes.Length == if key !in old(View()) && 4 * old(used) > old(nodes.Length) then 2 * old(nodes.Length) else old(nodes.Length)
    {
      rc := ContainsHashed(key, h);
      CountKeys(nodes[..]);
      if rc == SET_TRUE {
        return SET_ALREADY_PRESENT;
      }
      if 4 * used > nodes.Length {
        Grow();
      }
      ProbeIsExact(nodes[..], used, hash, key);
      Assigned(nodes[..], used, hash, key);
      var r := GetSlot(key, h);
      assert r.Free?;
      ghost var t := nodes[..];
      nodes[r.i] := Full(key, h);
      used := used + 1;
      assert nodes[..] == t[r.i := Full(key, hash(key))];
      CountKeys(nodes[..]);
      rc := SET_TRUE;
    }

    /** set_remove: a key leaves; all others stay findable exactly if LosesKey did not hold. */
    method Remove(key: Key) returns (rc: int)
      requires Valid()
      modifies this`used, nodes
      ensures rc == if key in old(View()) then SET_TRUE else SET_FALSE
      ensures rc == SET_FALSE ==> Valid() && View() == old(View())
      ensures View() == old(View()) - {key} && used == |View()|
      ensures rc == SET_TRUE ==> old(GetIndex(nodes[..], key, hash(key)).At?)
      ensures rc == SET_TRUE ==> (Valid() <==> !old(LosesKey(nodes[..], GetIndex(nodes[..], key, hash(key)).i)))
    {
      ProbeIsExact(nodes[..], used, hash, key);
      CountKeys(nodes[..]);
      ghost var t := nodes[..];
      var r := GetSlot(key, hash(key));
      if r.At? {
        nodes[r.i] := Empty;
        assert nodes[..] == t[r.i := Empty];
        Removed(t, r.i);
        StoredWithout(t, r.i);
        RelayoutNodes(r.i, true);
        used := used - 1;
        RemovedIsExact(t, used + 1, hash, r.i);
        CountKeys(nodes[..]);
        rc := SET_TRUE;
      } else {
        rc := SET_FALSE;
      }
    }
  }

  lemma DoubledIsUnique(t: Table)
    requires Unique(t)
    ensures Unique(t + Empties(|t|))
  {
  }

  lemma RemovedIsExact(t: Table, used: nat, hash: Key -> nat, x: nat)
    requires Sound(t, used, hash) && x < |t| && t[x].Full?
    ensures var u := Relayout(t[x := Empty], x, x, true);
      Keys(u) == Keys(t) - {t[x].key} && used == Count(u) + 1 && Unique(u) && (Sound(u, used - 1, hash) <==> !LosesKey(t, x))
  {
    var u := Relayout(t[x := Empty], x, x, true);
    Removed(t, x);
    RemovedReachable(t, x);
    KeysOfStored(t);
    KeysOfStored(u);
    KeyOnce(t, x);
  }

  lemma KeyOnce(t: Table, x: nat)
    requires Unique(t) && x < |t| && t[x].Full?
    ensures forall s :: s in Stored(t) && s.key == t[x].key ==> s == t[x]
  {
  }
}
