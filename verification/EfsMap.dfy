/** struct map: an ordered map from ids to data pointers, kept as a red-black tree. */
module EfsMap {
  import opened RbShape
  import opened RbRotate
  import opened RbTheory
  import opened RbInsert
  import opened RbTree

  ghost predicate Sorted(s: seq<Node>) {
    forall i, j :: 0 <= i < j < |s| ==> s[i].id < s[j].id
  }

  ghost predicate Below(s: seq<Node>, id: nat) {
    forall i :: 0 <= i < |s| ==> s[i].id < id
  }

  ghost predicate Above(s: seq<Node>, id: nat) {
    forall i :: 0 <= i < |s| ==> id < s[i].id
  }

  // What a sequence of nodes stores.
  ghost function Dict(s: seq<Node>): map<nat, object?> {
    if s == [] then map[] else Dict(s[1..])[s[0].id := s[0].data]
  }

  lemma {:induction false} DictAppend(a: seq<Node>, b: seq<Node>)
    ensures Dict(a + b) == Dict(b) + Dict(a)
  {
    if a == [] {
      assert a + b == b;
    } else {
      assert (a + b)[1..] == a[1..] + b;
      DictAppend(a[1..], b);
    }
  }

  lemma {:induction false} DictKeys(s: seq<Node>)
    ensures forall id :: id in Dict(s) <==> exists i :: 0 <= i < |s| && s[i].id == id
  {
    if s != [] {
      DictKeys(s[1..]);
      forall id
        ensures id in Dict(s) <==> exists i :: 0 <= i < |s| && s[i].id == id
      {
        if id in Dict(s[1..]) {
          var i :| 0 <= i < |s[1..]| && s[1..][i].id == id;
          assert s[i + 1].id == id;
        }
        if i :| 0 <= i < |s| && s[i].id == id {
          assert i == 0 || s[1..][i - 1].id == id;
        }
      }
    }
  }

  lemma DictAbsent(a: seq<Node>, b: seq<Node>, id: nat)
    requires Below(a, id) && Above(b, id)
    ensures id !in Dict(a) && id !in Dict(b) && id !in Dict(a + b)
  {
    DictKeys(a);
    DictKeys(b);
    DictAppend(a, b);
  }

  lemma Insertion(x: map<nat, object?>, y: map<nat, object?>, id: nat, d: object?)
    requires id !in x
    ensures y + (map[id := d] + x) == (y + x)[id := d]
  {
  }

  // A node in the middle contributes exactly its own entry.
  lemma DictMiddle(a: seq<Node>, n: Node, b: seq<Node>)
    requires Below(a, n.id) && Above(b, n.id)
    ensures Dict(a + [n] + b) == Dict(a + b)[n.id := n.data]
    ensures n.id !in Dict(a + b)
  {
    DictAppend(a + [n], b);
    DictAppend(a, [n]);
    DictAppend(a, b);
    DictAbsent(a, b, n.id);
    assert Dict([n]) == map[n.id := n.data];
    Insertion(Dict(a), Dict(b), n.id, n.data);
  }

  lemma SortedSplit(a: seq<Node>, n: Node, b: seq<Node>)
    requires Sorted(a + [n] + b)
    ensures Sorted(a) && Sorted(b) && Below(a, n.id) && Above(b, n.id)
  {
    var s := a + [n] + b;
    assert forall i :: 0 <= i < |a| ==> s[i] == a[i];
    assert s[|a|] == n;
    assert forall i :: 0 <= i < |b| ==> s[|a| + 1 + i] == b[i];
  }

  lemma SortedJoin(a: seq<Node>, n: Node, b: seq<Node>)
    requires Sorted(a) && Sorted(b) && Below(a, n.id) && Above(b, n.id)
    ensures Sorted(a + [n] + b) && Sorted(a + b)
  {
    forall i, j | 0 <= i < j < |a + b|
      ensures (a + b)[i].id < (a + b)[j].id
    {
      if i < |a| && |a| <= j {
        assert a[i].id < n.id < b[j - |a|].id;
      }
    }
  }

  // ---------- the search path ----------

  // Everything left of the position is smaller than id, everything right of it larger.
  ghost predicate Between(c: Ctx, id: nat) {
    Below(Before(c), id) && Above(After(c), id)
  }

  // The whole order around the root of t.
  lemma AroundOrder(c: Ctx, t: Tree)
    requires t.Fork?
    ensures Inorder(Plug(c, t)) == (Before(c) + Inorder(t.l)) + [t.n] + (Inorder(t.r) + After(c))
  {
    InorderPlug(c, t);
    Regroup(Before(c), Inorder(t.l), [t.n], Inorder(t.r), After(c));
  }

  lemma Around(c: Ctx, t: Tree)
    requires t.Fork? && Sorted(Inorder(Plug(c, t)))
    ensures var a, b := Before(c) + Inorder(t.l), Inorder(t.r) + After(c);
      Inorder(Plug(c, t)) == a + [t.n] + b && Below(a, t.n.id) && Above(b, t.n.id) && Sorted(a) && Sorted(b)
  {
    AroundOrder(c, t);
    SortedSplit(Before(c) + Inorder(t.l), t.n, Inorder(t.r) + After(c));
  }

  lemma AboveCons(id: nat, n: Node, s: seq<Node>)
    requires id < n.id && Above(s, n.id)
    ensures Above([n] + s, id)
  {
  }

  lemma BelowSnoc(id: nat, s: seq<Node>, n: Node)
    requires n.id < id && Below(s, n.id)
    ensures Below(s + [n], id)
  {
  }

  lemma StepDown(c: Ctx, t: Tree, id: nat)
    requires t.Fork? && Sorted(Inorder(Plug(c, t))) && Between(c, id)
    ensures id < t.n.id ==> Between(InLeft(c, t.n, t.red, t.r), id)
    ensures t.n.id < id ==> Between(InRight(c, t.l, t.n, t.red), id)
  {
    hide Sorted, Plug, Inorder, Above, Below;
    Around(c, t);
    if id < t.n.id {
      assert After(InLeft(c, t.n, t.red, t.r)) == [t.n] + (Inorder(t.r) + After(c));
      AboveCons(id, t.n, Inorder(t.r) + After(c));
    }
    if t.n.id < id {
      assert Before(InRight(c, t.l, t.n, t.red)) == Before(c) + Inorder(t.l) + [t.n];
      BelowSnoc(id, Before(c) + Inorder(t.l), t.n);
    }
  }

  // Where a search ends: at the node with the id, or at the hole where it would have to be.
  lemma SearchEnd(c: Ctx, t: Tree, id: nat)
    requires Sorted(Inorder(Plug(c, t))) && Between(c, id)
    ensures t == Leaf ==> id !in Dict(Inorder(Plug(c, t)))
    ensures t.Fork? && t.n.id == id ==> id in Dict(Inorder(Plug(c, t))) && Dict(Inorder(Plug(c, t)))[id] == t.n.data
  {
    if t == Leaf {
      EndAtHole(c);
      DictAbsent(Before(c), After(c), id);
    } else if t.n.id == id {
      EndAtNode(c, t);
    }
  }

  lemma EndAtHole(c: Ctx)
    ensures Inorder(Plug(c, Leaf)) == Before(c) + After(c)
  {
    InorderPlug(c, Leaf);
    assert Before(c) + [] == Before(c);
  }

  lemma EndAtNode(c: Ctx, t: Tree)
    requires t.Fork? && Sorted(Inorder(Plug(c, t)))
    ensures var d := Dict(Inorder(Plug(c, t))); t.n.id in d && d[t.n.id] == t.n.data
  {
    Around(c, t);
    DictMiddle(Before(c) + Inorder(t.l), t.n, Inorder(t.r) + After(c));
  }

  /** The descent of rb_search and rb_insert. */
  method Descend(root: RbRoot, id: nat, ghost tree: Tree)
    returns (node: Node?, parent: Node?, ghost c: Ctx, ghost t: Tree)
    requires Wf(root.node, Top, tree) && Sorted(Inorder(tree))
    ensures Wf(root.node, c, t) && Plug(c, t) == tree && Between(c, id)
    ensures node == Ptr(t) && parent == Up(c, null)
    ensures t.Fork? ==> t.n.id == id
  {
    node, parent := root.node, null;
    c, t := Top, tree;
    while node != null && node.id != id
      invariant Wf(root.node, c, t) && Plug(c, t) == tree && Between(c, id)
      invariant node == Ptr(t) && parent == Up(c, null)
      decreases t
    {
      parent := node;
      StepDown(c, t, id);
      WfDown(root.node, c, t);
      if id < node.id {
        node := node.left;
        c, t := InLeft(c, t.n, t.red, t.r), t.l;
      } else {
        node := node.right;
        c, t := InRight(c, t.l, t.n, t.red), t.r;
      }
    }
  }

  /** rb_link_node: a fresh red node fills the hole. */
  method LinkNode(root: RbRoot, node: Node, parent: Node?, ghost c: Ctx)
    requires Wf(root.node, c, Leaf) && parent == Up(c, null) && Between(c, node.id) && node !in CNodes(c)
    modifies root, node, if parent == null then {} else {parent}
    ensures Wf(root.node, c, Fork(Leaf, node, true, Leaf))
  {
    CAlive(c);
    node.parent := parent;
    node.red := true;
    node.left, node.right := null, null;
    if parent == null {
      root.node := node;
    } else if node.id < parent.id {
      parent.left := node;
    } else {
      parent.right := node;
    }
    if c.InLeft? { assert After(c)[0] == parent; assert Shape(c.r, parent); }
    if c.InRight? { assert Before(c)[|Before(c)| - 1] == parent; assert Shape(c.l, parent); }
  }

  // ---------- contents before and after ----------

  // A node with an absent id fills the hole.
  lemma Added(c: Ctx, n: Node)
    requires Sorted(Inorder(Plug(c, Leaf))) && Between(c, n.id)
    ensures var s := Inorder(Plug(c, Fork(Leaf, n, true, Leaf)));
      s == Before(c) + [n] + After(c) && Sorted(s) && Dict(s) == Dict(Inorder(Plug(c, Leaf)))[n.id := n.data]
  {
    EndAtHole(c);
    InorderPlug(c, Fork(Leaf, n, true, Leaf));
    assert [] + [n] + [] == [n];
    SortedParts(Before(c), After(c));
    SortedJoin(Before(c), n, After(c));
    DictMiddle(Before(c), n, After(c));
  }

  lemma SortedParts(a: seq<Node>, b: seq<Node>)
    requires Sorted(a + b)
    ensures Sorted(a) && Sorted(b)
  {
    var s := a + b;
    assert forall i :: 0 <= i < |a| ==> s[i] == a[i];
    assert forall i :: 0 <= i < |b| ==> s[|a| + i] == b[i];
  }

  // The root of t is taken out.
  lemma TakenOut(c: Ctx, t: Tree)
    requires t.Fork? && Sorted(Inorder(Plug(c, t)))
    ensures var s := Before(c) + Inorder(t.l) + Inorder(t.r) + After(c);
      Sorted(s) && Dict(s) == Dict(Inorder(Plug(c, t))) - {t.n.id}
  {
    Around(c, t);
    var a, b := Before(c) + Inorder(t.l), Inorder(t.r) + After(c);
    Assoc(Before(c), Inorder(t.l), Inorder(t.r), After(c));
    DictMiddle(a, t.n, b);
    Deletion(Dict(a + b), t.n.id, t.n.data);
    SortedJoin(a, t.n, b);
  }

  lemma Assoc(a: seq<Node>, b: seq<Node>, c: seq<Node>, d: seq<Node>)
    ensures a + b + c + d == (a + b) + (c + d)
  {
  }

  lemma Deletion(x: map<nat, object?>, id: nat, d: object?)
    requires id !in x
    ensures x[id := d] - {id} == x
  {
  }

  // A red leaf in the hole disturbs nothing but the colour of its parent.
  lemma LinkedRules(c: Ctx, n: Node)
    requires RB(Plug(c, Leaf))
    ensures Inserting(c, Fork(Leaf, n, true, Leaf))
  {
    RBPlug(c, Leaf);
  }

  /** rb_link_node and rb_insert_color */
  method InsertAt(root: RbRoot, node: Node, parent: Node?, ghost c: Ctx) returns (ghost tree: Tree)
    requires Wf(root.node, c, Leaf) && RB(Plug(c, Leaf))
    requires parent == Up(c, null) && Between(c, node.id) && node !in CNodes(c)
    modifies root, node, CNodes(c)
    ensures Wf(root.node, Top, tree) && RB(tree) && Nodes(tree) == CNodes(c) + {node}
    ensures Inorder(tree) == Inorder(Plug(c, Fork(Leaf, node, true, Leaf)))
  {
    LinkNode(root, node, parent, c);
    LinkedRules(c, node);
    tree := InsertColor(root, node, c, Fork(Leaf, node, true, Leaf));
    SameNodes(Top, tree, c, Fork(Leaf, node, true, Leaf));
  }

  // ---------- iteration ----------

  // In a sorted tree the node at index k is followed by the node at index k + 1.
  lemma FollowerAt(c: Ctx, t: Tree, k: nat)
    requires t.Fork? && Sorted(Inorder(Plug(c, t)))
    requires k < |Inorder(Plug(c, t))| && Inorder(Plug(c, t))[k] == t.n
    ensures Follower(c, t) == if k + 1 < |Inorder(Plug(c, t))| then Inorder(Plug(c, t))[k + 1] else null
  {
    Around(c, t);
    var a, b := Before(c) + Inorder(t.l), Inorder(t.r) + After(c);
    assert (a + [t.n] + b)[|a|] == t.n;
    assert k == |a|;
  }

  // The static variable of map_clear_iter.
  class Cursor {
    var p: Node?
    constructor () ensures p == null { p := null; }
  }

  /** struct map */
  class Map {
    const root: RbRoot
    ghost var tree: Tree

    ghost predicate Valid()
      reads this, root, Nodes(tree)
    {
      Wf(root.node, Top, tree) && RB(tree) && Sorted(Inorder(tree))
    }

    ghost function Contents(): map<nat, object?>
      reads this
    {
      Dict(Inorder(tree))
    }

    /** map_init */
    constructor ()
      ensures Valid() && fresh(root) && Contents() == map[] && tree == Leaf
    {
      root := new RbRoot();
      tree := Leaf;
    }

    /** map_search */
    method Search(id: nat) returns (data: object?)
      requires Valid()
      ensures data == if id in Contents() then Contents()[id] else null
    {
      var node, parent;
      ghost var c, t;
      node, parent, c, t := Descend(root, id, tree);
      SearchEnd(c, t, id);
      data := if node != null then node.data else null;
    }

    /** map_insert: a present id is refused and nothing changes. */
    method Insert(id: nat, data: object?) returns (rc: int)
      requires Valid()
      modifies this, root, Nodes(tree)
      ensures Valid() && fresh(Nodes(tree) - old(Nodes(tree)))
      ensures rc == if id in old(Contents()) then 1 else 0
      ensures Contents() == if id in old(Contents()) then old(Contents()) else old(Contents())[id := data]
      ensures rc == 1 ==> tree == old(tree)
    {
      Alive(tree);
      var newnode := new Node(id, data);
      var node, parent;
      ghost var c, t;
      node, parent, c, t := Descend(root, id, tree);
      SearchEnd(c, t, id);
      if node != null {
        return 1;
      }
      NodesPlug(c, t);
      Added(c, newnode);
      tree := InsertAt(root, newnode, parent, c);
      rc := 0;
    }

    /** map_delete */
    method Delete(id: nat) returns (rc: int, tofree: object?)
      requires Valid()
      modifies this, root, Nodes(tree)
      ensures Valid() && Nodes(tree) <= old(Nodes(tree))
      ensures rc == if id in old(Contents()) then 0 else 1
      ensures Contents() == old(Contents()) - {id}
      ensures rc == 0 ==> tofree == old(Contents()[id])
    {
      Alive(tree);
      var node, parent;
      ghost var c, t;
      node, parent, c, t := Descend(root, id, tree);
      SearchEnd(c, t, id);
      if node == null {
        return 1, null;
      }
      rc, tofree := 0, node.data;
      NodesPlug(c, t);
      TakenOut(c, t);
      tree := Erase(root, node, c, t);
      Smaller(c, t, Top, tree);
    }

    // The cursor has delivered k entries.
    ghost predicate Delivered(cur: Cursor, k: nat)
      reads this, cur
    {
      k <= |Inorder(tree)| && cur.p == if k == 0 then null else Inorder(tree)[k - 1]
    }

    /** map_clear_iter: the next entry in order of ids, or none, which rewinds the cursor. */
    method ClearIter(cur: Cursor, ghost k: nat) returns (more: bool, id: nat, data: object?)
      requires Valid() && Delivered(cur, k)
      modifies cur
      ensures Valid()
      ensures more == (k < |Inorder(tree)|)
      ensures more ==> id == Inorder(tree)[k].id && data == Inorder(tree)[k].data && Delivered(cur, k + 1)
      ensures !more ==> Delivered(cur, 0)
    {
      Alive(tree);
      var p;
      if cur.p == null {
        p := First(root, tree);
      } else {
        InorderNodes(tree);
        ghost var c, t := Locate(tree, cur.p);
        WfAt(root.node, c, t);
        FollowerAt(c, t, k - 1);
        p := Next(cur.p, root.node, c, t);
      }
      cur.p := p;
      if p == null {
        return false, 0, null;
      }
      more, id, data := true, p.id, p.data;
    }

    /** The loop of a caller over the iterator: each id of the map once, in ascending order. */
    method Walk(cur: Cursor) returns (ids: seq<nat>)
      requires Valid() && cur.p == null
      modifies cur
      ensures Valid() && cur.p == null
      ensures forall i, j :: 0 <= i < j < |ids| ==> ids[i] < ids[j]
      ensures forall id :: id in ids <==> id in Contents()
    {
      ids := [];
      var more, id, data := ClearIter(cur, 0);
      while more
        invariant Valid() && |ids| < |Inorder(tree)| + 1
        invariant more ==> |ids| < |Inorder(tree)| && id == Inorder(tree)[|ids|].id && Delivered(cur, |ids| + 1)
        invariant !more ==> |ids| == |Inorder(tree)| && cur.p == null
        invariant forall i :: 0 <= i < |ids| ==> ids[i] == Inorder(tree)[i].id
        decreases |Inorder(tree)| - |ids|, more
      {
        ids := ids + [id];
        more, id, data := ClearIter(cur, |ids|);
      }
      DictKeys(Inorder(tree));
    }
  }
}
