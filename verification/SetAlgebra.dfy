/** The set algebra and comparisons: loops over the slots of one table, probing another. */
module SetAlgebra {
  import opened SetTheory
  import opened SetGrowth
  import opened HashSets

  lemma HashAt(s: HashSet, i: nat)
    requires s.Valid() && i < s.nodes.Length && s.nodes[i].Full?
    ensures s.nodes[i].hash == s.hash(s.nodes[i].key) && s.nodes[i].key in s.View()
  {
    assert s.nodes[..][i] in Stored(s.nodes[..]);
    assert s.nodes[..][i].key in Keys(s.nodes[..]);
  }

  // Two distinct sets that share no table and hash alike.
  ghost predicate Apart(a: HashSet, b: HashSet)
    reads a, b
  {
    a != b && a.nodes != b.nodes && a.hash == b.hash
  }

  // The keys of the first i slots that are in w, or not in w.
  ghost function Picked(t: Table, i: nat, w: set<Key>, wanted: bool): set<Key>
    requires i <= |t|
  {
    set k | k in Keys(t[..i]) && (k in w <==> wanted)
  }

  lemma PickedStep(t: Table, i: nat, w: set<Key>, wanted: bool)
    requires i < |t|
    ensures Picked(t, i + 1, w, wanted) ==
      Picked(t, i, w, wanted) + if t[i].Full? && (t[i].key in w <==> wanted) then {t[i].key} else {}
  {
    KeysPrefix(t, i);
  }

  // One slot of s is looked at.
  method Offer(res: HashSet, s: HashSet, other: HashSet, wanted: bool, i: nat)
    requires res.Valid() && s.Valid() && other.Valid() && Apart(res, s) && Apart(res, other)
    requires i < s.nodes.Length && s.nodes[i].Full?
    modifies res, res.nodes
    ensures res.Valid() && (res.nodes == old(res.nodes) || fresh(res.nodes))
    ensures res.View() == old(res.View()) + if s.nodes[i].key in other.View() <==> wanted then {s.nodes[i].key} else {}
  {
    hide Sound, Keys;
    HashAt(s, i);
    var rc := other.ContainsHashed(s.nodes[i].key, s.nodes[i].hash);
    if (rc == SET_TRUE) == wanted {
      rc := res.AddHashed(s.nodes[i].key, s.nodes[i].hash);
    }
  }

  // Adds to res those keys of s that are in other, or not in other.
  method Gather(res: HashSet, s: HashSet, other: HashSet, wanted: bool)
    requires res.Valid() && s.Valid() && other.Valid() && Apart(res, s) && Apart(res, other)
    modifies res, res.nodes
    ensures res.Valid() && (res.nodes == old(res.nodes) || fresh(res.nodes))
    ensures res.View() == old(res.View()) + set k | k in s.View() && (k in other.View() <==> wanted)
  {
    hide Sound;
    ghost var v, t, w := res.View(), s.nodes[..], other.View();
    var i := 0;
    while i < s.nodes.Length
      invariant i <= s.nodes.Length && res.Valid() && Apart(res, s) && Apart(res, other)
      invariant res.nodes == old(res.nodes) || fresh(res.nodes)
      invariant s.Valid() && other.Valid() && s.nodes[..] == t && other.View() == w
      invariant res.View() == v + Picked(t, i, w, wanted)
    {
      PickedStep(t, i, w, wanted);
      if s.nodes[i].Full? {
        Offer(res, s, other, wanted, i);
      }
      i := i + 1;
    }
    assert t[..i] == t;
  }

  // Adds all keys of s to res.
  method CopyAll(res: HashSet, s: HashSet)
    requires res.Valid() && s.Valid() && Apart(res, s)
    modifies res, res.nodes
    ensures res.Valid() && (res.nodes == old(res.nodes) || fresh(res.nodes))
    ensures res.View() == old(res.View()) + s.View()
  {
    hide Sound;
    ghost var v, t := res.View(), s.nodes[..];
    var i := 0;
    while i < s.nodes.Length
      invariant i <= s.nodes.Length && res.Valid() && Apart(res, s)
      invariant res.nodes == old(res.nodes) || fresh(res.nodes)
      invariant s.Valid() && s.nodes[..] == t
      invariant res.View() == v + Keys(t[..i])
    {
      KeysPrefix(t, i);
      if s.nodes[i].Full? {
        CopyOne(res, s, i);
      }
      i := i + 1;
    }
    assert t[..i] == t;
  }

  method CopyOne(res: HashSet, s: HashSet, i: nat)
    requires res.Valid() && s.Valid() && Apart(res, s) && i < s.nodes.Length && s.nodes[i].Full?
    modifies res, res.nodes
    ensures res.Valid() && (res.nodes == old(res.nodes) || fresh(res.nodes))
    ensures res.View() == old(res.View()) + {s.nodes[i].key}
  {
    hide Sound, Keys;
    HashAt(s, i);
    var rc := res.AddHashed(s.nodes[i].key, s.nodes[i].hash);
  }

  lemma EmptyView(s: HashSet)
    requires s.Valid()
    ensures s.used == 0 <==> s.View() == {}
    ensures s.used == |s.View()|
  {
    CountKeys(s.nodes[..]);
  }

  /** set_union */
  method Union(res: HashSet, s1: HashSet, s2: HashSet) returns (rc: int)
    requires res.Valid() && s1.Valid() && s2.Valid() && Apart(res, s1) && Apart(res, s2)
    modifies res, res.nodes
    ensures res.Valid()
    ensures if old(res.View()) == {} then rc == SET_TRUE && res.View() == s1.View() + s2.View()
            else rc == SET_OCCUPIED_ERROR && res.View() == old(res.View())
  {
    hide Sound, Keys;
    EmptyView(res);
    if res.used != 0 {
      return SET_OCCUPIED_ERROR;
    }
    ghost var v1, v2 := s1.View(), s2.View();
    CopyAll(res, s1);
    assert res.View() == v1;
    assert s2.Valid() && s2.View() == v2 && s1.View() == v1 && Apart(res, s2);
    CopyAll(res, s2);
    assert res.View() == v1 + v2;
    rc := SET_TRUE;
  }

  /** set_intersection */
  method Intersection(res: HashSet, s1: HashSet, s2: HashSet) returns (rc: int)
    requires res.Valid() && s1.Valid() && s2.Valid() && Apart(res, s1) && Apart(res, s2)
    modifies res, res.nodes
    ensures res.Valid()
    ensures if old(res.View()) == {} then rc == SET_TRUE && res.View() == s1.View() * s2.View()
            else rc == SET_OCCUPIED_ERROR && res.View() == old(res.View())
  {
    hide Sound, Keys;
    EmptyView(res);
    if res.used != 0 {
      return SET_OCCUPIED_ERROR;
    }
    Gather(res, s1, s2, true);
    rc := SET_TRUE;
  }

  /** set_difference */
  method Difference(res: HashSet, s1: HashSet, s2: HashSet) returns (rc: int)
    requires res.Valid() && s1.Valid() && s2.Valid() && Apart(res, s1) && Apart(res, s2)
    modifies res, res.nodes
    ensures res.Valid()
    ensures if old(res.View()) == {} then rc == SET_TRUE && res.View() == s1.View() - s2.View()
            else rc == SET_OCCUPIED_ERROR && res.View() == old(res.View())
  {
    hide Sound, Keys;
    EmptyView(res);
    if res.used != 0 {
      return SET_OCCUPIED_ERROR;
    }
    Gather(res, s1, s2, false);
    rc := SET_TRUE;
  }

  /** set_symmetric_difference */
  method SymmetricDifference(res: HashSet, s1: HashSet, s2: HashSet) returns (rc: int)
    requires res.Valid() && s1.Valid() && s2.Valid() && Apart(res, s1) && Apart(res, s2)
    modifies res, res.nodes
    ensures res.Valid()
    ensures if old(res.View()) == {}
            then rc == SET_TRUE && res.View() == (s1.View() - s2.View()) + (s2.View() - s1.View())
            else rc == SET_OCCUPIED_ERROR && res.View() == old(res.View())
  {
    hide Sound, Keys;
    EmptyView(res);
    if res.used != 0 {
      return SET_OCCUPIED_ERROR;
    }
    Gather(res, s1, s2, false);
    assert s1.Valid() && s2.Valid() && Apart(res, s1) && Apart(res, s2);
    Gather(res, s2, s1, false);
    rc := SET_TRUE;
  }

  // Whether the keys of all slots of s are in other.
  method AllIn(s: HashSet, other: HashSet) returns (all: bool)
    requires s.Valid() && other.Valid() && s.hash == other.hash
    ensures all <==> s.View() <= other.View()
  {
    ghost var t := s.nodes[..];
    var i := 0;
    while i < s.nodes.Length
      invariant i <= s.nodes.Length && Keys(t[..i]) <= other.View()
    {
      KeysPrefix(t, i);
      if s.nodes[i].Full? {
        HashAt(s, i);
        var rc := other.ContainsHashed(s.nodes[i].key, s.nodes[i].hash);
        if rc != SET_TRUE {
          return false;
        }
      }
      i := i + 1;
    }
    assert t[..i] == t;
    all := true;
  }

  /** set_is_subset */
  method IsSubset(test: HashSet, against: HashSet) returns (rc: int)
    requires test.Valid() && against.Valid() && test.hash == against.hash
    ensures rc == if test.View() <= against.View() then SET_TRUE else SET_FALSE
  {
    var all := AllIn(test, against);
    rc := if all then SET_TRUE else SET_FALSE;
  }

  /** set_is_subset_strict: comparing sizes first is enough to rule out equality. */
  method IsSubsetStrict(test: HashSet, against: HashSet) returns (rc: int)
    requires test.Valid() && against.Valid() && test.hash == against.hash
    ensures rc == if test.View() < against.View() then SET_TRUE else SET_FALSE
  {
    StrictlySmaller(test, against);
    if test.used >= against.used {
      return SET_FALSE;
    }
    rc := IsSubset(test, against);
  }

  lemma StrictlySmaller(a: HashSet, b: HashSet)
    requires a.Valid() && b.Valid()
    ensures a.View() < b.View() <==> a.used < b.used && a.View() <= b.View()
  {
    EmptyView(a);
    EmptyView(b);
    SmallerSet(a.View(), b.View());
  }

  lemma SmallerSet(a: set<Key>, b: set<Key>)
    ensures a < b <==> |a| < |b| && a <= b
    ensures a <= b && |a| == |b| ==> a == b
  {
    if a <= b {
      assert b == a + (b - a);
    }
  }

  /** set_cmp: equality follows from equal sizes and inclusion one way. */
  method Compare(left: HashSet, right: HashSet) returns (rc: int)
    requires left.Valid() && right.Valid() && left.hash == right.hash
    ensures rc == SET_EQUAL <==> left.View() == right.View()
    ensures rc == SET_RIGHT_GREATER <==> |left.View()| < |right.View()|
    ensures rc == SET_LEFT_GREATER <==> |left.View()| > |right.View()|
    ensures rc in {SET_EQUAL, SET_RIGHT_GREATER, SET_LEFT_GREATER, SET_UNEQUAL}
  {
    EmptyView(left);
    EmptyView(right);
    if left.used < right.used {
      return SET_RIGHT_GREATER;
    } else if right.used < left.used {
      return SET_LEFT_GREATER;
    }
    var all := AllIn(left, right);
    SmallerSet(left.View(), right.View());
    rc := if all then SET_EQUAL else SET_UNEQUAL;
  }
}
