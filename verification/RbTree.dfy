/** rb_erase, rb_first and rb_next. */
module RbTree {
  import opened RbShape
  import opened RbRotate
  import opened RbTheory
  import opened RbInsert
  import opened RbErase
  import opened RbUnlink

  // Unlinking a node with at most one child leaves the child's subtree in its place.
  lemma UnlinkedRules(c: Ctx, t: Tree, child: Tree)
    requires t.Fork? && RB(Plug(c, t)) && ((t.l == Leaf && child == t.r) || (t.r == Leaf && child == t.l))
    ensures if t.red then RB(Plug(c, child)) else Short(c, child)
  {
    hide Plug, CBal, CCalm, CRootBlack;
    RBPlug(c, t);
    RBPlug(c, child);
  }

  lemma UnlinkedInorder(c: Ctx, t: Tree, child: Tree)
    requires t.Fork? && ((t.l == Leaf && child == t.r) || (t.r == Leaf && child == t.l))
    ensures Inorder(Plug(c, child)) == Before(c) + Inorder(t.l) + Inorder(t.r) + After(c)
  {
    InorderPlug(c, child);
    assert Before(c) + [] == Before(c);
    assert Before(c) + Inorder(child) + [] == Before(c) + Inorder(child);
  }

  // The subtree of the one child moves up.
  method UnlinkSimple(root: RbRoot, node: Node, child: Node?, ghost c: Ctx, ghost t: Tree, ghost u: Tree)
    requires Wf(root.node, c, t) && t.Fork? && t.n == node && child == Ptr(u)
    requires (t.l == Leaf && u == t.r) || (t.r == Leaf && u == t.l)
    modifies root, CNodes(c), Nodes(t)
    ensures Wf(root.node, c, u)
  {
    CAlive(c); Alive(t);
    assert Shape(u, node);
    var parent := node.parent;
    if child != null {
      SetParent(child, parent, u, node);
    }
    ReplaceChild(root, parent, node, child, c);
  }

  // ---------- the node has two children: its successor takes its place ----------

  // Where the right child of the successor s ends up once s has replaced the node of t.
  ghost function Spliced(c: Ctx, t: Tree, d: Ctx, s: Node): Ctx
    requires t.Fork?
  {
    Under(d, InRight(c, t.l, s, t.red))
  }

  lemma SplicedRules(c: Ctx, t: Tree, d: Ctx, s: Node, cs: bool, sr: Tree)
    requires t.Fork? && t.r == Plug(d, Fork(Leaf, s, cs, sr)) && Leftmost(d) && RB(Plug(c, t))
    ensures if cs then RB(Plug(Spliced(c, t, d, s), sr)) else Short(Spliced(c, t, d, s), sr)
  {
    var b := InRight(c, t.l, t.n, t.red);
    var m := Fork(Leaf, s, cs, sr);
    PlugUnder(d, b, m);
    RBPlug(Under(d, b), m);
    SameRules(d, c, t.l, t.n, s, t.red);
    RBPlug(Spliced(c, t, d, s), sr);
    if d != Top { assert Spliced(c, t, d, s) != Top; }
  }

  lemma SplicedInorder(c: Ctx, t: Tree, d: Ctx, s: Node, cs: bool, sr: Tree)
    requires t.Fork? && t.r == Plug(d, Fork(Leaf, s, cs, sr)) && Leftmost(d)
    ensures Inorder(Plug(Spliced(c, t, d, s), sr)) == Before(c) + Inorder(t.l) + Inorder(t.r) + After(c)
  {
    var u := Fork(t.l, s, t.red, Plug(d, sr));
    assert Inorder(u) == Inorder(t.l) + [s] + Inorder(Plug(d, sr));
    hide Inorder, Plug, Before, After, Leftmost;
    PlugUnder(d, InRight(c, t.l, s, t.red), sr);
    LeftmostInorder(d, s, cs, sr);
    InorderPlug(c, u);
    Regrouped(Before(c), Inorder(t.l), [s], Inorder(Plug(d, sr)), After(c));
  }

  lemma Regrouped(a: seq<Node>, b: seq<Node>, c: seq<Node>, d: seq<Node>, e: seq<Node>)
    ensures a + (b + c + d) + e == a + b + (c + d) + e
  {
  }

  // Going down the left links ends at the first node of the subtree.
  method LeftEnd(first: Node, ghost r: Tree, ghost base: Node?) returns (s: Node, ghost d: Ctx, ghost m: Tree)
    requires r.Fork? && r.n == first && Shape(r, base)
    ensures m.Fork? && m.n == s && m.l == Leaf && Leftmost(d) && Plug(d, m) == r
    ensures Shape(m, Up(d, base)) && s in Nodes(m)
  {
    s, d, m := first, Top, r;
    while s.left != null
      invariant m.Fork? && m.n == s && Leftmost(d) && Plug(d, m) == r && Shape(m, Up(d, base))
      decreases m
    {
      s, d, m := s.left, InLeft(d, m.n, m.red, m.r), m.l;
    }
  }

  method UnlinkBoth(root: RbRoot, node: Node, ghost c: Ctx, ghost t: Tree)
    returns (child: Node?, parent: Node, red: bool, ghost d: Ctx, ghost u: Tree)
    requires Wf(root.node, c, t) && t.Fork? && t.n == node && t.l.Fork? && t.r.Fork? && RB(Plug(c, t))
    modifies root, CNodes(c), Nodes(t)
    ensures Wf(root.node, d, u) && child == Ptr(u) && parent == Up(d, null)
    ensures if red then RB(Plug(d, u)) else Short(d, u)
    ensures Inorder(Plug(d, u)) == Before(c) + Inorder(t.l) + Inorder(t.r) + After(c)
  {
    hide RB, Short, Inorder;
    CAlive(c); Alive(t);
    assert Shape(t.r, node);
    var s;
    ghost var rel, m;
    s, rel, m := LeftEnd(node.right, t.r, node);
    child := s.right;
    parent := s.parent;
    red := s.red;
    d, u := Spliced(c, t, rel, s), m.r;
    SplicedRules(c, t, rel, s, red, u);
    SplicedInorder(c, t, rel, s, red, u);
    if parent == node {
      AtBase(root.node, c, t, rel, m);
      WfDown(root.node, c, t);
      SpliceNear(root, node, s, c, t.l, t.red, u);
      parent := s;
    } else {
      SpliceFar(root, node, s, c, t.l, t.red, rel, red, u);
      WfDown(root.node, c, Fork(t.l, s, t.red, Plug(rel, u)));
      WfInto(root.node, InRight(c, t.l, s, t.red), rel, u);
    }
  }

  // The successor's parent is the erased node only if it is its right child.
  lemma AtBase(top: Node?, c: Ctx, t: Tree, d: Ctx, m: Tree)
    requires Wf(top, c, t) && t.Fork? && t.r == Plug(d, m) && Up(d, t.n) == t.n
    ensures d == Top
  {
    NodesPlug(d, m);
  }

  /** rb_erase: node, at position c, leaves the tree; all other nodes keep their order. */
  method Erase(root: RbRoot, node: Node, ghost c: Ctx, ghost t: Tree) returns (ghost tree: Tree)
    requires Wf(root.node, c, t) && t.Fork? && t.n == node && RB(Plug(c, t))
    modifies root, CNodes(c), Nodes(t)
    ensures Wf(root.node, Top, tree) && RB(tree)
    ensures Inorder(tree) == Before(c) + Inorder(t.l) + Inorder(t.r) + After(c)
  {
    CAlive(c); Alive(t);
    var child, parent, red;
    ghost var d, u;
    if node.left == null || node.right == null {
      child := if node.left == null then node.right else node.left;
      parent, red := node.parent, node.red;
      d, u := c, if t.l == Leaf then t.r else t.l;
      UnlinkedRules(c, t, u);
      UnlinkedInorder(c, t, u);
      UnlinkSimple(root, node, child, c, t, u);
    } else {
      child, parent, red, d, u := UnlinkBoth(root, node, c, t);
    }
    Smaller(c, t, d, u);
    if !red {
      tree := EraseColor(root, child, parent, d, u);
    } else {
      WfPlug(root.node, d, u);
      tree := Plug(d, u);
    }
  }

  lemma Smaller(c: Ctx, t: Tree, d: Ctx, u: Tree)
    requires t.Fork? && Inorder(Plug(d, u)) == Before(c) + Inorder(t.l) + Inorder(t.r) + After(c)
    ensures CNodes(d) + Nodes(u) <= CNodes(c) + Nodes(t)
  {
    NodesPlug(c, t); InorderNodes(Plug(c, t)); InorderPlug(c, t);
    NodesPlug(d, u); InorderNodes(Plug(d, u));
  }

  // ---------- walking in order ----------

  // The node after the root of t, if any.
  ghost function Follower(c: Ctx, t: Tree): Node?
    requires t.Fork?
  {
    var rest := Inorder(t.r) + After(c);
    if rest == [] then null else rest[0]
  }

  lemma LeftEndIsFirst(d: Ctx, m: Tree)
    requires Leftmost(d) && m.Fork? && m.l == Leaf
    ensures Inorder(Plug(d, m)) != [] && Inorder(Plug(d, m))[0] == m.n
  {
    LeftmostInorder(d, m.n, m.red, m.r);
  }

  /** rb_first */
  method First(root: RbRoot, ghost tree: Tree) returns (n: Node?)
    requires Wf(root.node, Top, tree)
    ensures n == if Inorder(tree) == [] then null else Inorder(tree)[0]
  {
    n := root.node;
    if n != null {
      ghost var d, m;
      n, d, m := LeftEnd(n, tree, null);
      LeftEndIsFirst(d, m);
    }
  }

  /** rb_next */
  method Next(node: Node, ghost top: Node?, ghost c: Ctx, ghost t: Tree) returns (n: Node?)
    requires Wf(top, c, t) && t.Fork? && t.n == node
    ensures n == Follower(c, t)
  {
    assert node !in CNodes(c);
    if node.parent == node {
      return null;
    }
    if node.right != null {
      assert Shape(t.r, node);
      ghost var d, m;
      n, d, m := LeftEnd(node.right, t.r, node);
      LeftEndIsFirst(d, m);
      return;
    }
    var at: Node := node;
    var parent := at.parent;
    ghost var d, u := c, t;
    while parent != null && at == parent.right
      invariant Wf(top, d, u) && u.Fork? && u.n == at && parent == Up(d, null) && After(d) == After(c)
      decreases d
    {
      WfUp(top, d, u);
      assert d.InRight?;
      d, u := d.up, Fork(d.l, d.n, d.red, u);
      at := parent;
      parent := at.parent;
    }
    n := parent;
  }

  // Every node of the tree has a position.
  lemma {:induction false} Locate(tree: Tree, n: Node) returns (c: Ctx, t: Tree)
    requires n in Nodes(tree)
    ensures Plug(c, t) == tree && t.Fork? && t.n == n
  {
    if tree.n == n {
      c, t := Top, tree;
    } else if n in Nodes(tree.l) {
      c, t := Locate(tree.l, n);
      var b := InLeft(Top, tree.n, tree.red, tree.r);
      PlugUnder(c, b, t);
      c := Under(c, b);
    } else {
      c, t := Locate(tree.r, n);
      var b := InRight(Top, tree.l, tree.n, tree.red);
      PlugUnder(c, b, t);
      c := Under(c, b);
    }
  }

  lemma {:induction false} UnderTop(d: Ctx)
    ensures Under(d, Top) == d
  {
    if d != Top { UnderTop(d.up); }
  }

  lemma WfAt(top: Node?, c: Ctx, t: Tree)
    requires Wf(top, Top, Plug(c, t))
    ensures Wf(top, c, t)
  {
    WfInto(top, Top, c, t);
    UnderTop(c);
  }
}
