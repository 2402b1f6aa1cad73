/** __rb_erase_color: restoring the black height after a black node has been unlinked. */
module RbErase {
  import opened RbShape
  import opened RbRotate
  import opened RbTheory
  import opened RbInsert

  // t is one black node short for its place; below its root, which may be red, all is well.
  ghost predicate Short(c: Ctx, t: Tree) {
    Bal(t) && (t.Fork? ==> Calm(t.l) && Calm(t.r)) && CBal(c, BH(t) + 1) && CCalm(c) && CRootBlack(c)
  }

  // Nothing is wrong any more.
  ghost predicate Healed(c: Ctx, t: Tree) {
    Bal(t) && Calm(t) && CBal(c, BH(t)) && CCalm(c) && CRootBlack(c) && !(Red(t) && (CRed(c) || c == Top))
  }

  ghost function Sibling(c: Ctx): Tree
    requires c != Top
  {
    if c.InLeft? then c.r else c.l
  }

  // The sibling of a short subtree is never missing.
  lemma SiblingExists(c: Ctx, t: Tree)
    requires Short(c, t) && c != Top
    ensures Sibling(c).Fork? && Bal(Sibling(c)) && Calm(Sibling(c)) && BH(Sibling(c)) == BH(t) + 1
    ensures Red(Sibling(c)) ==> !c.red && Sibling(c).l.Fork? && Sibling(c).r.Fork? && !Red(Sibling(c).l) && !Red(Sibling(c).r)
    ensures CBal(c.up, BH(t) + 1 + if c.red then 0 else 1) && CCalm(c.up) && (c.up == Top ==> !c.red) &&
      CRootBlack(c.up)
  {
  }

  // ---------- a red sibling is rotated above the parent ----------

  ghost function SiblingLifted(c: Ctx): Ctx
    requires c != Top && Sibling(c).Fork?
  {
    var w := Sibling(c);
    if c.InLeft? then InLeft(InLeft(c.up, w.n, false, w.r), c.n, true, w.l)
    else InRight(InRight(c.up, w.l, w.n, false), w.r, c.n, true)
  }

  lemma SiblingLiftedIsShort(c: Ctx, t: Tree)
    requires Short(c, t) && c != Top && Red(Sibling(c))
    ensures Short(SiblingLifted(c), t)
    ensures Inorder(Plug(SiblingLifted(c), t)) == Inorder(Plug(c, t))
    ensures !Red(Sibling(SiblingLifted(c))) && Depth(SiblingLifted(c)) == Depth(c) + 1
  {
    SiblingExists(c, t);
    var w := Sibling(c);
    var d := SiblingLifted(c);
    assert CBal(d.up, BH(t) + 1);
    assert CCalm(d.up) && CRootBlack(d.up);
    if c.InLeft? {
      RotInorder(Fork(t, c.n, c.red, w));
      SameInorder(c.up, Fork(t, c.n, c.red, w), Fork(Fork(t, c.n, true, w.l), w.n, false, w.r));
    } else {
      RotInorder(Fork(w, c.n, c.red, t));
      SameInorder(c.up, Fork(w, c.n, c.red, t), Fork(w.l, w.n, false, Fork(w.r, c.n, true, t)));
    }
  }

  method LiftSibling(root: RbRoot, other: Node, parent: Node, ghost c: Ctx, ghost t: Tree)
    requires Wf(root.node, c, t) && Short(c, t) && c != Top && c.n == parent
    requires Red(Sibling(c)) && Sibling(c).n == other
    modifies root, CNodes(c), Nodes(t)
    ensures Sibling(c).Fork? && Wf(root.node, SiblingLifted(c), t)
  {
    ghost var w := Sibling(c);
    SiblingExists(c, t);
    CAlive(c); Alive(t);
    WfUp(root.node, c, t);
    if other == parent.right {
      LiftRight(root, other, parent, c.up, w, t);
      WfDown(root.node, c.up, Fork(Fork(t, parent, true, w.l), other, false, w.r));
      WfDown(root.node, InLeft(c.up, other, false, w.r), Fork(t, parent, true, w.l));
    } else {
      LiftLeft(root, other, parent, c.up, w, t);
      WfDown(root.node, c.up, Fork(w.l, other, false, Fork(w.r, parent, true, t)));
      WfDown(root.node, InRight(c.up, w.l, other, false), Fork(w.r, parent, true, t));
    }
  }

  // ---------- a black sibling with black children turns red ----------

  ghost function Faded(c: Ctx, t: Tree): Tree
    requires c != Top && Sibling(c).Fork?
  {
    if c.InLeft? then Fork(t, c.n, c.red, Paint(c.r, true)) else Fork(Paint(c.l, true), c.n, c.red, t)
  }

  lemma FadedIsShort(c: Ctx, t: Tree)
    requires Short(c, t) && c != Top && !Red(t)
    requires Sibling(c).Fork? && !Red(Sibling(c)) && !Red(Sibling(c).l) && !Red(Sibling(c).r)
    ensures Short(c.up, Faded(c, t))
    ensures Inorder(Plug(c.up, Faded(c, t))) == Inorder(Plug(c, t))
  {
    SiblingExists(c, t);
    SameInorder(c.up, Faded(c, t), Lifted(c, t));
  }

  method FadeSibling(other: Node, ghost top: Node?, ghost c: Ctx, ghost t: Tree)
    requires Wf(top, c, t) && c != Top && Sibling(c).Fork? && Sibling(c).n == other
    modifies other`red
    ensures Wf(top, c.up, Faded(c, t))
  {
    ghost var d := if c.InLeft? then InRight(c.up, t, c.n, c.red) else InLeft(c.up, c.n, c.red, t);
    WfUp(top, c, t);
    WfDown(top, c.up, Lifted(c, t));
    SetColor(other, true, top, d, Sibling(c));
    WfUp(top, d, Paint(Sibling(c), true));
  }

  // ---------- a black sibling with a red child gives a black node away ----------

  // The sibling once its outer child is red.
  ghost function Leaning(c: Ctx): Tree
    requires c != Top && Sibling(c).Fork? && (Red(Sibling(c).l) || Red(Sibling(c).r))
  {
    var w := Sibling(c);
    if c.InLeft? then if Red(w.r) then w else Fork(w.l.l, w.l.n, false, Fork(w.l.r, w.n, true, w.r))
    else if Red(w.l) then w else Fork(Fork(w.l, w.n, true, w.r.l), w.r.n, false, w.r.r)
  }

  lemma LeaningIsSound(c: Ctx, t: Tree)
    requires Short(c, t) && c != Top && Sibling(c).Fork? && !Red(Sibling(c))
    requires Red(Sibling(c).l) || Red(Sibling(c).r)
    ensures var w := Leaning(c);
      w.Fork? && !w.red && BH(w) == BH(t) + 1 && Bal(w) && Calm(w) &&
      Inorder(w) == Inorder(Sibling(c)) && (if c.InLeft? then Red(w.r) else Red(w.l))
  {
    SiblingExists(c, t);
    RotInorder(Sibling(c));
  }

  ghost function Repaid(c: Ctx, t: Tree, w: Tree): Tree
    requires c != Top && w.Fork? && (if c.InLeft? then w.r.Fork? else w.l.Fork?)
  {
    if c.InLeft? then Fork(Fork(t, c.n, false, w.l), w.n, c.red, Paint(w.r, false))
    else Fork(Paint(w.l, false), w.n, c.red, Fork(w.r, c.n, false, t))
  }

  lemma RepaidInorder(c: Ctx, t: Tree, w: Tree)
    requires c != Top && w.Fork? && (if c.InLeft? then w.r.Fork? else w.l.Fork?)
    requires Inorder(w) == Inorder(Sibling(c))
    ensures Inorder(Plug(c.up, Repaid(c, t, w))) == Inorder(Plug(c, t))
  {
    var u := Repaid(c, t, w);
    if c.InLeft? {
      RotInorder(Fork(t, c.n, c.red, w));
      Regroup(Inorder(t), [c.n], Inorder(w.l), [w.n], Inorder(w.r));
    } else {
      RotInorder(Fork(w, c.n, c.red, t));
      Regroup(Inorder(w.l), [w.n], Inorder(w.r), [c.n], Inorder(t));
    }
    SameInorder(c.up, u, Lifted(c, t));
  }

  lemma RepaidIsHealed(c: Ctx, t: Tree)
    requires Short(c, t) && c != Top && !Red(t) && Sibling(c).Fork? && !Red(Sibling(c))
    requires Red(Sibling(c).l) || Red(Sibling(c).r)
    ensures var w := Leaning(c);
      w.Fork? && (if c.InLeft? then w.r.Fork? else w.l.Fork?) &&
      Healed(c.up, Repaid(c, t, w)) && Inorder(Plug(c.up, Repaid(c, t, w))) == Inorder(Plug(c, t))
  {
    hide Inorder, Plug;
    SiblingExists(c, t);
    LeaningIsSound(c, t);
    var w := Leaning(c);
    RepaidInorder(c, t, w);
    assert Calm(t) && Calm(w.l) && Calm(w.r);
    var u := Repaid(c, t, w);
    if c.InLeft? {
      assert Calm(Fork(t, c.n, false, w.l)) && Bal(Fork(t, c.n, false, w.l));
      assert Bal(Paint(w.r, false)) && Calm(Paint(w.r, false));
    } else {
      assert Calm(Fork(w.r, c.n, false, t)) && Bal(Fork(w.r, c.n, false, t));
      assert Bal(Paint(w.l, false)) && Calm(Paint(w.l, false));
    }
    assert Bal(u) && Calm(u) && BH(u) == BH(t) + 1 + if c.red then 0 else 1;
  }

  // The outer child of the sibling is made red, rotating the sibling if it has to.
  method Lean(root: RbRoot, other: Node, parent: Node, ghost c: Ctx, ghost t: Tree) returns (leaning: Node)
    requires Wf(root.node, c, t) && c != Top && c.n == parent
    requires Sibling(c).Fork? && Sibling(c).n == other && !Red(Sibling(c))
    requires Red(Sibling(c).l) || Red(Sibling(c).r)
    modifies root, CNodes(c), Nodes(t)
    ensures c.InLeft? ==> Wf(root.node, InLeft(c.up, parent, c.red, Leaning(c)), t)
    ensures c.InRight? ==> Wf(root.node, InRight(c.up, Leaning(c), parent, c.red), t)
    ensures Leaning(c).Fork? && leaning == Leaning(c).n
  {
    ghost var w := Sibling(c);
    ghost var d := if c.InLeft? then InRight(c.up, t, parent, c.red) else InLeft(c.up, parent, c.red, t);
    CAlive(c); Alive(t);
    WfUp(root.node, c, t);
    WfDown(root.node, c.up, Lifted(c, t));
    assert Wf(root.node, d, w) && Shape(w.l, other) && Shape(w.r, other);
    assert other == parent.right <==> c.InLeft?;
    leaning := other;
    if other == parent.right {
      if other.right == null || !other.right.red {
        leaning := other.left;
        LiftLeft(root, other.left, other, d, w.l, w.r);
      }
    } else {
      if other.left == null || !other.left.red {
        leaning := other.right;
        LiftRight(root, other.right, other, d, w.r, w.l);
      }
    }
    WfUp(root.node, d, Leaning(c));
    WfDown(root.node, c.up, if c.InLeft? then Fork(t, parent, c.red, Leaning(c)) else Fork(Leaning(c), parent, c.red, t));
  }

  // The sibling takes the colour of the parent and is rotated above it.
  method RepayLeft(root: RbRoot, other: Node, parent: Node, ghost up: Ctx, ghost red: bool, ghost t: Tree,
                   ghost w: Tree)
    requires w.Fork? && w.n == other && w.r.Fork?
    requires Wf(root.node, InLeft(up, parent, red, w), t)
    modifies root, CNodes(up), parent, Nodes(w), Nodes(t)
    ensures Wf(root.node, up, Fork(Fork(t, parent, false, w.l), other, red, Paint(w.r, false)))
  {
    CAlive(up); Alive(t); Alive(w);
    WfUp(root.node, InLeft(up, parent, red, w), t);
    ghost var f := Fork(t, parent, red, w);
    WfDown(root.node, up, f);
    ghost var d := InRight(up, t, parent, red);
    SetColor(other, parent.red, root.node, d, w);
    WfDown(root.node, d, Paint(w, red));
    ghost var e := InRight(d, w.l, other, red);
    SetColor(other.right, false, root.node, e, w.r);
    WfUp(root.node, e, Paint(w.r, false));
    ghost var v := Fork(w.l, other, red, Paint(w.r, false));
    WfUp(root.node, d, v);
    SetColor(parent, false, root.node, up, Fork(t, parent, red, v));
    RotateLeft(root, parent, up, Fork(t, parent, false, v));
  }

  method RepayRight(root: RbRoot, other: Node, parent: Node, ghost up: Ctx, ghost red: bool, ghost t: Tree,
                    ghost w: Tree)
    requires w.Fork? && w.n == other && w.l.Fork?
    requires Wf(root.node, InRight(up, w, parent, red), t)
    modifies root, CNodes(up), parent, Nodes(w), Nodes(t)
    ensures Wf(root.node, up, Fork(Paint(w.l, false), other, red, Fork(w.r, parent, false, t)))
  {
    CAlive(up); Alive(t); Alive(w);
    WfUp(root.node, InRight(up, w, parent, red), t);
    ghost var f := Fork(w, parent, red, t);
    WfDown(root.node, up, f);
    ghost var d := InLeft(up, parent, red, t);
    SetColor(other, parent.red, root.node, d, w);
    WfDown(root.node, d, Paint(w, red));
    ghost var e := InLeft(d, other, red, w.r);
    SetColor(other.left, false, root.node, e, w.l);
    WfUp(root.node, e, Paint(w.l, false));
    ghost var v := Fork(Paint(w.l, false), other, red, w.r);
    WfUp(root.node, d, v);
    SetColor(parent, false, root.node, up, Fork(v, parent, red, t));
    RotateRight(root, parent, up, Fork(v, parent, false, t));
  }

  // ---------- the loop ----------

  // The position after a round: either nothing is wrong, or a higher subtree is short.
  ghost predicate Advanced(c: Ctx, t: Tree, done: bool, d: Ctx, u: Tree)
    requires c != Top
  {
    Inorder(Plug(d, u)) == Inorder(Plug(c, t)) &&
    if done then Healed(d, u) else Short(d, u) && d == c.up && (c.red ==> Red(u))
  }

  method EraseStepBlack(root: RbRoot, other: Node, parent: Node, ghost c: Ctx, ghost t: Tree)
    returns (done: bool, ghost d: Ctx, ghost u: Tree)
    requires Wf(root.node, c, t) && Short(c, t) && !Red(t) && c != Top && c.n == parent
    requires Sibling(c).Fork? && Sibling(c).n == other && !Red(Sibling(c))
    modifies root, CNodes(c), Nodes(t)
    ensures Wf(root.node, d, u) && Advanced(c, t, done, d, u)
    ensures !done ==> u.Fork? && u.n == parent
  {
    CAlive(c); Alive(t);
    ghost var w := Sibling(c);
    assert Shape(w, parent) && Shape(w.l, other) && Shape(w.r, other);
    d := c.up;
    if (other.left == null || !other.left.red) && (other.right == null || !other.right.red) {
      FadedIsShort(c, t);
      FadeSibling(other, root.node, c, t);
      done, u := false, Faded(c, t);
    } else {
      RepaidIsHealed(c, t);
      var onLeft := parent.right == other;
      var leaning := Lean(root, other, parent, c, t);
      LeaningIsSound(c, t);
      done, u := true, Repaid(c, t, Leaning(c));
      if onLeft {
        RepayLeft(root, leaning, parent, c.up, c.red, t, Leaning(c));
      } else {
        RepayRight(root, leaning, parent, c.up, c.red, t, Leaning(c));
      }
    }
  }

  /** One round: node, the root of t or null, is black and not the root of the whole tree. */
  method EraseStep(root: RbRoot, node: Node?, parent: Node, ghost c: Ctx, ghost t: Tree)
    returns (done: bool, ghost d: Ctx, ghost u: Tree)
    requires Wf(root.node, c, t) && Short(c, t) && !Red(t) && c != Top && c.n == parent && node == Ptr(t)
    modifies root, CNodes(c), Nodes(t)
    ensures Wf(root.node, d, u) && Inorder(Plug(d, u)) == Inorder(Plug(c, t))
    ensures CNodes(d) + Nodes(u) == CNodes(c) + Nodes(t)
    ensures done ==> d == Top && RB(u)
    ensures !done ==> Short(d, u) && u.Fork? && u.n == parent
    ensures !done ==> Depth(d) < Depth(c) || (Depth(d) == Depth(c) && Red(u))
  {
    CAlive(c); Alive(t);
    SiblingExists(c, t);
    ghost var c1 := c;
    assert Shape(Sibling(c), parent);
    assert node == parent.left <==> c.InLeft?;
    var other := if parent.left == node then parent.right else parent.left;
    if other.red {
      var onLeft := parent.left == node;
      SiblingLiftedIsShort(c, t);
      LiftSibling(root, other, parent, c, t);
      c1 := SiblingLifted(c);
      SameNodes(c, t, c1, t);
      SiblingExists(c1, t);
      other := if onLeft then parent.right else parent.left;
    }
    done, d, u := EraseStepBlack(root, other, parent, c1, t);
    if done {
      RBPlug(d, u);
      WfPlug(root.node, d, u);
      d, u := Top, Plug(d, u);
    }
    SameNodes(c, t, d, u);
  }

  ghost function Blackened(t: Tree): Tree {
    if t.Fork? then Paint(t, false) else t
  }

  // A short subtree that is red, or is the whole tree, is put right by a black root.
  lemma ShortEnds(c: Ctx, t: Tree)
    requires Short(c, t) && (Red(t) || c == Top)
    ensures RB(Plug(c, Blackened(t)))
    ensures Inorder(Plug(c, Blackened(t))) == Inorder(Plug(c, t))
  {
    RBPlug(c, Blackened(t));
    SameInorder(c, Blackened(t), t);
  }

  lemma AtTop(top: Node?, c: Ctx, t: Tree)
    requires Wf(top, c, t) && top == Ptr(t)
    ensures c == Top
  {
    if c != Top {
      TopInContext(c, Ptr(t), top, null);
    }
  }

  // The node at which the loop stops, if any, becomes black.
  method BlackenRoot(node: Node?, ghost top: Node?, ghost c: Ctx, ghost t: Tree)
    requires Wf(top, c, t) && node == Ptr(t)
    requires (RB(t) && c == Top) || (Short(c, t) && (Red(t) || node == top))
    modifies if node == null then {} else {node}
    ensures Wf(top, Top, Plug(c, Blackened(t))) && RB(Plug(c, Blackened(t)))
    ensures Inorder(Plug(c, Blackened(t))) == Inorder(Plug(c, t))
  {
    if !(RB(t) && c == Top) {
      if node == top {
        AtTop(top, c, t);
      }
      ShortEnds(c, t);
    }
    if node != null {
      SetColor(node, false, top, c, t);
    }
    WfPlug(top, c, Blackened(t));
  }

  // The loop: it ends at a short subtree whose root is to turn black, or with all restored.
  method EraseLoop(root: RbRoot, first: Node?, above: Node?, ghost c0: Ctx, ghost t0: Tree)
    returns (node: Node?, ghost c: Ctx, ghost t: Tree)
    requires Wf(root.node, c0, t0) && Short(c0, t0) && first == Ptr(t0) && above == Up(c0, null)
    modifies root, CNodes(c0), Nodes(t0)
    ensures Wf(root.node, c, t) && node == Ptr(t)
    ensures (RB(t) && c == Top) || (Short(c, t) && (Red(t) || node == root.node))
    ensures Inorder(Plug(c, t)) == Inorder(Plug(c0, t0)) && CNodes(c) + Nodes(t) == CNodes(c0) + Nodes(t0)
  {
    var parent := above;
    node, c, t := first, c0, t0;
    CAlive(c); Alive(t);
    while (node == null || !node.red) && node != root.node
      invariant Wf(root.node, c, t)
      invariant Short(c, t) && node == Ptr(t) && parent == Up(c, null)
      invariant Inorder(Plug(c, t)) == Inorder(Plug(c0, t0))
      invariant CNodes(c) + Nodes(t) == CNodes(c0) + Nodes(t0)
      decreases Depth(c), if Red(t) then 0 else 1
    {
      var done;
      done, c, t := EraseStep(root, node, parent, c, t);
      if done {
        node := root.node;
        return;
      }
      node := parent;
      parent := node.parent;
    }
  }

  /** __rb_erase_color: node, possibly null, is the root of a subtree one black node short. */
  method EraseColor(root: RbRoot, node: Node?, parent: Node?, ghost c0: Ctx, ghost t0: Tree) returns (ghost tree: Tree)
    requires Wf(root.node, c0, t0) && Short(c0, t0) && node == Ptr(t0) && parent == Up(c0, null)
    modifies root, CNodes(c0), Nodes(t0)
    ensures Wf(root.node, Top, tree) && RB(tree)
    ensures Inorder(tree) == Inorder(Plug(c0, t0))
  {
    CAlive(c0); Alive(t0);
    var last;
    ghost var c, t;
    last, c, t := EraseLoop(root, node, parent, c0, t0);
    BlackenRoot(last, root.node, c, t);
    tree := Plug(c, Blackened(t));
  }
}
