/** rb_insert_color: recolouring and rotating after a red leaf has been linked in. */
module RbInsert {
  import opened RbShape
  import opened RbRotate
  import opened RbTheory

  // All red-black rules hold, except that the red root of t may have a red parent.
  ghost predicate Inserting(c: Ctx, t: Tree) {
    Red(t) && Bal(t) && Calm(t) && CBal(c, BH(t)) && CCalm(c) && CRootBlack(c)
  }

  // What one round of the loop leaves behind: the same nodes in the same order, nearer the root.
  ghost predicate Progress(c: Ctx, t: Tree, d: Ctx, u: Tree) {
    Inserting(d, u) && Depth(d) < Depth(c) && Inorder(Plug(d, u)) == Inorder(Plug(c, t))
  }

  /** Parent and uncle, the two children of gparent, turn black and gparent red. */
  method PushBlackDown(left: Node, right: Node, gparent: Node, ghost top: Node?, ghost c: Ctx, ghost l: Tree,
                       ghost r: Tree)
    requires l.Fork? && l.n == left && r.Fork? && r.n == right
    requires Wf(top, c, Fork(l, gparent, false, r))
    modifies left`red, right`red, gparent`red
    ensures Wf(top, c, Fork(Paint(l, false), gparent, true, Paint(r, false)))
  {
    WfDown(top, c, Fork(l, gparent, false, r));
    SetColor(right, false, top, InRight(c, l, gparent, false), r);
    WfUp(top, InRight(c, l, gparent, false), Paint(r, false));
    WfDown(top, c, Fork(l, gparent, false, Paint(r, false)));
    SetColor(left, false, top, InLeft(c, gparent, false, Paint(r, false)), l);
    WfUp(top, InLeft(c, gparent, false, Paint(r, false)), Paint(l, false));
    SetColor(gparent, true, top, c, Fork(Paint(l, false), gparent, false, Paint(r, false)));
  }

  /** A red left child changes colours with its parent and is rotated above it. */
  method LiftLeft(root: RbRoot, parent: Node, gparent: Node, ghost c: Ctx, ghost p: Tree, ghost v: Tree)
    requires p.Fork? && p.n == parent
    requires Wf(root.node, c, Fork(p, gparent, false, v))
    modifies root, CNodes(c), Nodes(Fork(p, gparent, false, v))
    ensures Wf(root.node, c, Fork(p.l, parent, false, Fork(p.r, gparent, true, v)))
  {
    CAlive(c); Alive(p); Alive(v);
    WfDown(root.node, c, Fork(p, gparent, false, v));
    SetColor(parent, false, root.node, InLeft(c, gparent, false, v), p);
    WfUp(root.node, InLeft(c, gparent, false, v), Paint(p, false));
    SetColor(gparent, true, root.node, c, Fork(Paint(p, false), gparent, false, v));
    RotateRight(root, gparent, c, Fork(Paint(p, false), gparent, true, v));
  }

  /** The mirror image of LiftLeft. */
  method LiftRight(root: RbRoot, parent: Node, gparent: Node, ghost c: Ctx, ghost p: Tree, ghost v: Tree)
    requires p.Fork? && p.n == parent
    requires Wf(root.node, c, Fork(v, gparent, false, p))
    modifies root, CNodes(c), Nodes(Fork(v, gparent, false, p))
    ensures Wf(root.node, c, Fork(Fork(v, gparent, true, p.l), parent, false, p.r))
  {
    CAlive(c); Alive(p); Alive(v);
    WfDown(root.node, c, Fork(v, gparent, false, p));
    SetColor(parent, false, root.node, InRight(c, v, gparent, false), p);
    WfUp(root.node, InRight(c, v, gparent, false), Paint(p, false));
    SetColor(gparent, true, root.node, c, Fork(v, gparent, false, Paint(p, false)));
    RotateLeft(root, gparent, c, Fork(v, gparent, true, Paint(p, false)));
  }

  // The subtree of the parent, given the position of one of its children.
  ghost function Lifted(c: Ctx, t: Tree): Tree
    requires c != Top
  {
    if c.InLeft? then Fork(t, c.n, c.red, c.r) else Fork(c.l, c.n, c.red, t)
  }

  // A red parent has a black parent; what the rules say around the two.
  lemma Grandparent(c: Ctx, t: Tree)
    requires Inserting(c, t) && CRed(c)
    ensures c.up != Top && !c.up.red
    ensures Bal(Lifted(c, t)) && BH(Lifted(c, t)) == BH(t)
    ensures Calm(Paint(Lifted(c, t), false))
    ensures CBal(c.up, BH(t)) && CCalm(c.up) && CRootBlack(c.up)
    ensures CBal(c.up.up, BH(t) + 1) && CCalm(c.up.up) && CRootBlack(c.up.up)
    ensures c.up.InLeft? ==> Bal(c.up.r) && Calm(c.up.r) && BH(c.up.r) == BH(t)
    ensures c.up.InRight? ==> Bal(c.up.l) && Calm(c.up.l) && BH(c.up.l) == BH(t)
  {
    var p := Lifted(c, t);
    assert CBal(c.up, BH(p));
    assert CCalm(c.up) && CRootBlack(c.up);
  }

  // Recolouring moves the violation two levels up.
  lemma Recoloured(c: Ctx, t: Tree)
    requires Inserting(c, t) && CRed(c)
    ensures c.up.InLeft? && Red(c.up.r) ==>
      Progress(c, t, c.up.up, Fork(Paint(Lifted(c, t), false), c.up.n, true, Paint(c.up.r, false)))
    ensures c.up.InRight? && Red(c.up.l) ==>
      Progress(c, t, c.up.up, Fork(Paint(c.up.l, false), c.up.n, true, Paint(Lifted(c, t), false)))
  {
    Grandparent(c, t);
    var p := Lifted(c, t);
    if c.up.InLeft? && Red(c.up.r) {
      SameInorder(c.up.up, Fork(p, c.up.n, false, c.up.r), Fork(Paint(p, false), c.up.n, true, Paint(c.up.r, false)));
    } else if c.up.InRight? && Red(c.up.l) {
      SameInorder(c.up.up, Fork(c.up.l, c.up.n, false, p), Fork(Paint(c.up.l, false), c.up.n, true, Paint(p, false)));
    }
  }

  // The red edge straightened: the child of the grandparent that will be lifted above it.
  ghost function Straight(c: Ctx, t: Tree): Tree
    requires Inserting(c, t) && CRed(c) && c.up != Top
  {
    var p := Lifted(c, t);
    if c.up.InLeft? then if c.InLeft? then p else RotL(p)
    else if c.InRight? then p else RotR(p)
  }

  // Where the violation is after the grandparent has been rotated below s.
  ghost function TurnedCtx(c: Ctx, s: Tree): Ctx
    requires c != Top && c.up != Top && s.Fork?
  {
    if c.up.InLeft? then InLeft(c.up.up, s.n, false, Fork(s.r, c.up.n, true, c.up.r))
    else InRight(c.up.up, Fork(c.up.l, c.up.n, true, s.l), s.n, false)
  }

  ghost function TurnedTree(c: Ctx, s: Tree): Tree
    requires c != Top && c.up != Top && s.Fork?
  {
    if c.up.InLeft? then s.l else s.r
  }

  lemma StraightIsSound(c: Ctx, t: Tree)
    requires Inserting(c, t) && CRed(c) && c.up != Top
    ensures var s := Straight(c, t);
      s.Fork? && BH(s) == BH(t) && Bal(s) && Inorder(s) == Inorder(Lifted(c, t)) &&
      Red(TurnedTree(c, s)) && Calm(Paint(s, false)) && (if c.up.InLeft? then !Red(s.r) else !Red(s.l))
  {
    Grandparent(c, t);
    RotInorder(Lifted(c, t));
  }

  lemma TurnInorder(c: Ctx, s: Tree)
    requires c != Top && c.up != Top && s.Fork?
    ensures Inorder(Plug(TurnedCtx(c, s), TurnedTree(c, s))) == Inorder(Plug(c.up, s))
  {
    if c.up.InLeft? {
      var g := Fork(s, c.up.n, c.up.red, c.up.r);
      RotInorder(g);
      SameInorder(c.up.up, g, Fork(s.l, s.n, false, Fork(s.r, c.up.n, true, c.up.r)));
    } else {
      var g := Fork(c.up.l, c.up.n, c.up.red, s);
      RotInorder(g);
      SameInorder(c.up.up, g, Fork(Fork(c.up.l, c.up.n, true, s.l), s.n, false, s.r));
    }
  }

  // Rotating ends the violation: the new parent is black.
  lemma Turned(c: Ctx, t: Tree)
    requires Inserting(c, t) && CRed(c) && c.up != Top
    requires if c.up.InLeft? then !Red(c.up.r) else !Red(c.up.l)
    ensures var s := Straight(c, t); s.Fork? && Progress(c, t, TurnedCtx(c, s), TurnedTree(c, s))
  {
    Grandparent(c, t);
    StraightIsSound(c, t);
    var s := Straight(c, t);
    TurnInorder(c, s);
    SameInorder(c.up, s, Lifted(c, t));
  }

  // The state after the second half of the loop body, with next as the node to go on with.
  ghost predicate TurnDone(top: Node?, c: Ctx, t: Tree, next: Node)
    requires Inserting(c, t) && CRed(c) && c.up != Top && Straight(c, t).Fork?
    reads CNodes(TurnedCtx(c, Straight(c, t))), Nodes(TurnedTree(c, Straight(c, t)))
  {
    var d, u := TurnedCtx(c, Straight(c, t)), TurnedTree(c, Straight(c, t));
    Wf(top, d, u) && u.Fork? && u.n == next
  }

  method InsertRotateLeft(root: RbRoot, node: Node, parent: Node, gparent: Node, ghost c: Ctx, ghost t: Tree)
    returns (next: Node)
    requires Wf(root.node, c, t) && Inserting(c, t) && t.n == node
    requires CRed(c) && c.n == parent && c.up.InLeft? && c.up.n == gparent && !Red(c.up.r)
    modifies root, CNodes(c), Nodes(t)
    ensures Straight(c, t).Fork? && TurnDone(root.node, c, t, next)
  {
    ghost var p := Lifted(c, t);
    CAlive(c); Alive(t);
    Grandparent(c, t);
    WfUp(root.node, c, t);
    next := node;
    var lifted := parent;
    if parent.right == node {
      RotateLeft(root, parent, c.up, p);
      RotNodes(p);
      p := RotL(p);
      next, lifted := parent, node;
    }
    WfUp(root.node, c.up, p);
    LiftLeft(root, lifted, gparent, c.up.up, p, c.up.r);
    WfDown(root.node, c.up.up, Fork(p.l, lifted, false, Fork(p.r, gparent, true, c.up.r)));
  }

  method InsertRotateRight(root: RbRoot, node: Node, parent: Node, gparent: Node, ghost c: Ctx, ghost t: Tree)
    returns (next: Node)
    requires Wf(root.node, c, t) && Inserting(c, t) && t.n == node
    requires CRed(c) && c.n == parent && c.up.InRight? && c.up.n == gparent && !Red(c.up.l)
    modifies root, CNodes(c), Nodes(t)
    ensures Straight(c, t).Fork? && TurnDone(root.node, c, t, next)
  {
    ghost var p := Lifted(c, t);
    CAlive(c); Alive(t);
    Grandparent(c, t);
    WfUp(root.node, c, t);
    next := node;
    var lifted := parent;
    if parent.left == node {
      RotateRight(root, parent, c.up, p);
      RotNodes(p);
      p := RotR(p);
      next, lifted := parent, node;
    }
    WfUp(root.node, c.up, p);
    LiftRight(root, lifted, gparent, c.up.up, p, c.up.l);
    WfDown(root.node, c.up.up, Fork(Fork(c.up.l, gparent, true, p.l), lifted, false, p.r));
  }

  /** One round of the loop: node is red and so is its parent. */
  method InsertStep(root: RbRoot, node: Node, ghost c: Ctx, ghost t: Tree)
    returns (next: Node, ghost d: Ctx, ghost u: Tree)
    requires Wf(root.node, c, t) && Inserting(c, t) && t.n == node && CRed(c)
    modifies root, CNodes(c), Nodes(t)
    ensures Wf(root.node, d, u) && Progress(c, t, d, u) && u.n == next
  {
    Grandparent(c, t);
    WfUp(root.node, c, t);
    ghost var p := Lifted(c, t);
    var parent := node.parent;
    var gparent := parent.parent;
    var uncle := if parent == gparent.left then gparent.right else gparent.left;
    assert gparent == c.up.n && (parent == gparent.left <==> c.up.InLeft?);
    if uncle != null && uncle.red {
      Recoloured(c, t);
      WfUp(root.node, c.up, p);
      if parent == gparent.left {
        PushBlackDown(parent, uncle, gparent, root.node, c.up.up, p, c.up.r);
        u := Fork(Paint(p, false), gparent, true, Paint(c.up.r, false));
      } else {
        PushBlackDown(uncle, parent, gparent, root.node, c.up.up, c.up.l, p);
        u := Fork(Paint(c.up.l, false), gparent, true, Paint(p, false));
      }
      next, d := gparent, c.up.up;
    } else {
      Turned(c, t);
      if parent == gparent.left {
        next := InsertRotateLeft(root, node, parent, gparent, c, t);
      } else {
        next := InsertRotateRight(root, node, parent, gparent, c, t);
      }
      d, u := TurnedCtx(c, Straight(c, t)), TurnedTree(c, Straight(c, t));
    }
  }

  lemma InsertDone(c: Ctx, t: Tree)
    requires Inserting(c, t) && !CRed(c)
    ensures Plug(c, t).Fork? && RB(Paint(Plug(c, t), false))
  {
    RBPlug(c, t);
    if c != Top {
      InorderPlug(c, t);
    }
  }

  /** rb_insert_color: node is a red node just linked in; the result is a red-black tree
      of the same nodes in the same order. */
  method InsertColor(root: RbRoot, node: Node, ghost c0: Ctx, ghost t0: Tree) returns (ghost tree: Tree)
    requires Wf(root.node, c0, t0) && Inserting(c0, t0) && t0.n == node
    modifies root, CNodes(c0), Nodes(t0)
    ensures Wf(root.node, Top, tree) && RB(tree)
    ensures Inorder(tree) == Inorder(Plug(c0, t0))
  {
    var node := node;
    ghost var c, t := c0, t0;
    CAlive(c); Alive(t);
    while node.parent != null && node.parent.red
      invariant Wf(root.node, c, t) && Inserting(c, t) && t.n == node
      invariant Inorder(Plug(c, t)) == Inorder(Plug(c0, t0))
      invariant CNodes(c) + Nodes(t) == CNodes(c0) + Nodes(t0)
      decreases Depth(c)
    {
      ghost var d, u;
      node, d, u := InsertStep(root, node, c, t);
      SameNodes(c, t, d, u);
      c, t := d, u;
    }
    InsertDone(c, t);
    WfPlug(root.node, c, t);
    NodesPlug(c, t);
    SetColor(root.node, false, root.node, Top, Plug(c, t));
    tree := Paint(Plug(c, t), false);
  }
}
