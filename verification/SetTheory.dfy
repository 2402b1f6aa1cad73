/** Open addressing with linear probing: tables as sequences of slots. */
module SetTheory {
  type Key = string

  /** A slot: NULL, or a set_node with its key and the key's hash. */
  datatype Slot = Empty | Full(key: Key, hash: nat)

  type Table = seq<Slot>

  // All slots of t[lo..hi] are occupied.
  ghost predicate Occ(t: Table, lo: nat, hi: nat)
    requires hi <= |t|
  {
    forall k :: lo <= k < hi ==> t[k].Full?
  }

  ghost function Home(t: Table, hash: nat): nat
    requires |t| > 0
    ensures Home(t, hash) < |t|
  {
    hash % |t|
  }

  // Every slot visited before p by a probe that starts at h is occupied.
  ghost predicate Probe(t: Table, h: nat, p: nat)
    requires h < |t| && p < |t|
  {
    if h <= p then Occ(t, h, p) else Occ(t, h, |t|) && Occ(t, 0, p)
  }

  // Slot j is visited before slot p by a probe that starts at h.
  ghost predicate OnPath(h: nat, j: nat, p: nat) {
    if h <= p then h <= j < p else h <= j || j < p
  }

  ghost predicate Unique(t: Table) {
    forall i, j :: 0 <= i < j < |t| && t[i].Full? && t[j].Full? ==> t[i].key != t[j].key
  }

  // Every key can be found from its home.
  ghost predicate Reachable(t: Table) {
    |t| > 0 && forall p :: 0 <= p < |t| && t[p].Full? ==> Probe(t, Home(t, t[p].hash), p)
  }

  ghost function Keys(t: Table): set<Key> {
    set p | 0 <= p < |t| && t[p].Full? :: t[p].key
  }

  ghost function Count(t: Table): nat {
    if t == [] then 0 else Count(t[..|t| - 1]) + if t[|t| - 1].Full? then 1 else 0
  }

  // ---------- counting ----------

  lemma {:induction false} CountUpdate(t: Table, i: nat, s: Slot)
    requires i < |t|
    ensures Count(t[i := s]) == Count(t) + (if s.Full? then 1 else 0) - (if t[i].Full? then 1 else 0)
  {
    var u := t[i := s];
    if i == |t| - 1 {
      assert u[..|t| - 1] == t[..|t| - 1];
    } else {
      assert u[..|t| - 1] == t[..|t| - 1][i := s];
      CountUpdate(t[..|t| - 1], i, s);
    }
  }

  lemma {:induction false} CountEmpty(t: Table, u: Table)
    requires forall i :: 0 <= i < |u| ==> u[i].Empty?
    ensures Count(t + u) == Count(t)
  {
    if u == [] {
      assert t + u == t;
    } else {
      assert (t + u)[..|t + u| - 1] == t + u[..|u| - 1];
      CountEmpty(t, u[..|u| - 1]);
    }
  }

  // Fewer keys than slots in t[lo..]: one of those slots is empty.
  lemma {:induction false} Pigeonhole(t: Table, lo: nat) returns (e: nat)
    requires lo <= |t| && Count(t) < |t| - lo
    ensures lo <= e < |t| && t[e].Empty?
  {
    if t[|t| - 1].Empty? {
      e := |t| - 1;
    } else {
      e := Pigeonhole(t[..|t| - 1], lo);
    }
  }

  lemma {:induction false} CountKeys(t: Table)
    requires Unique(t)
    ensures |Keys(t)| == Count(t)
  {
    if t == [] {
      assert Keys(t) == {};
    } else {
      CountKeys(t[..|t| - 1]);
      KeysPrefix(t, |t| - 1);
      assert t[..|t|] == t;
    }
  }

  // One more slot of the table.
  lemma KeysPrefix(t: Table, i: nat)
    requires i < |t|
    ensures Keys(t[..i + 1]) == Keys(t[..i]) + if t[i].Full? then {t[i].key} else {}
    ensures Unique(t) && t[i].Full? ==> t[i].key !in Keys(t[..i])
  {
    var u, v := t[..i + 1], t[..i];
    forall k | k in Keys(v) ensures k in Keys(u) {
      var p :| 0 <= p < |v| && v[p].Full? && v[p].key == k;
      assert u[p].key == k;
    }
    if t[i].Full? { assert u[i].key == t[i].key; }
    forall k | k in Keys(u) && (t[i].Full? ==> k != t[i].key) ensures k in Keys(v) {
      var p :| 0 <= p < |u| && u[p].Full? && u[p].key == k;
      assert v[p].key == k;
    }
  }

  // ---------- __get_index ----------

  datatype Found = At(i: nat) | Free(i: nat) | Circular

  predicate Holds(s: Slot, key: Key, hash: nat) {
    s.Full? && s.hash == hash && s.key == key
  }

  // The probe from slot i on, after k slots have been visited.
  function Seek(t: Table, key: Key, hash: nat, i: nat, k: nat): (r: Found)
    requires i < |t| && k <= |t|
    ensures !r.Circular? ==> r.i < |t|
    decreases |t| - k
  {
    if k == |t| then Circular
    else if t[i].Empty? then Free(i)
    else if Holds(t[i], key, hash) then At(i)
    else Seek(t, key, hash, if i + 1 == |t| then 0 else i + 1, k + 1)
  }

  function GetIndex(t: Table, key: Key, hash: nat): (r: Found)
    requires |t| > 0
    ensures !r.Circular? ==> r.i < |t|
  {
    Seek(t, key, hash, hash % |t|, 0)
  }

  // The slot visited after k steps.
  ghost function After(n: nat, h: nat, k: nat): nat
    requires h < n && k <= n
  {
    if h + k < n then h + k else h + k - n
  }

  lemma {:induction false} SeekSpec(t: Table, key: Key, hash: nat, i: nat, k: nat)
    requires |t| > 0 && k <= |t| && i == After(|t|, Home(t, hash), k) < |t|
    requires forall j :: 0 <= j < |t| && OnPath(Home(t, hash), j, i) && k < |t| ==> t[j].Full? && !Holds(t[j], key, hash)
    requires k == |t| ==> forall j :: 0 <= j < |t| ==> t[j].Full? && !Holds(t[j], key, hash)
    ensures Sought(t, key, hash, Seek(t, key, hash, i, k))
    decreases |t| - k
  {
    if k < |t| && t[i].Full? && !Holds(t[i], key, hash) {
      SeekSpec(t, key, hash, if i + 1 == |t| then 0 else i + 1, k + 1);
    }
  }

  // The outcome of a probe: the first slot on the path that is empty or holds the key.
  ghost predicate Sought(t: Table, key: Key, hash: nat, r: Found)
    requires |t| > 0
  {
    match r
    case At(i) =>
      i < |t| && Holds(t[i], key, hash) &&
      forall j :: 0 <= j < |t| && OnPath(Home(t, hash), j, i) ==> t[j].Full? && !Holds(t[j], key, hash)
    case Free(i) =>
      i < |t| && t[i].Empty? &&
      forall j :: 0 <= j < |t| && OnPath(Home(t, hash), j, i) ==> t[j].Full? && !Holds(t[j], key, hash)
    case Circular =>
      forall j :: 0 <= j < |t| ==> t[j].Full? && !Holds(t[j], key, hash)
  }
}
