/** Colour and black-height discipline of the tree and of a position in it. */
module RbTheory {
  import opened RbShape
  import opened RbRotate

  ghost predicate Red(t: Tree) { t.Fork? && t.red }

  ghost predicate CRed(c: Ctx) { c != Top && c.red }

  ghost function BH(t: Tree): nat {
    match t
    case Leaf => 0
    case Fork(l, _, red, _) => BH(l) + if red then 0 else 1
  }

  // Every path of t down to a leaf has the same number of black nodes.
  ghost predicate Bal(t: Tree) {
    match t
    case Leaf => true
    case Fork(l, _, _, r) => BH(l) == BH(r) && Bal(l) && Bal(r)
  }

  // No red node of t has a red child.
  ghost predicate Calm(t: Tree) {
    match t
    case Leaf => true
    case Fork(l, _, red, r) => (red ==> !Red(l) && !Red(r)) && Calm(l) && Calm(r)
  }

  ghost predicate RB(t: Tree) { Bal(t) && Calm(t) && !Red(t) }

  // The context is balanced around a subtree of black height h.
  ghost predicate CBal(c: Ctx, h: nat) {
    match c
    case Top => true
    case InLeft(up, _, red, r) => BH(r) == h && Bal(r) && CBal(up, h + if red then 0 else 1)
    case InRight(up, l, _, red) => BH(l) == h && Bal(l) && CBal(up, h + if red then 0 else 1)
  }

  ghost predicate CCalm(c: Ctx) {
    match c
    case Top => true
    case InLeft(up, _, red, r) => (red ==> !Red(r) && !CRed(up)) && Calm(r) && CCalm(up)
    case InRight(up, l, _, red) => (red ==> !Red(l) && !CRed(up)) && Calm(l) && CCalm(up)
  }

  ghost predicate CRootBlack(c: Ctx) {
    match c
    case Top => true
    case InLeft(up, _, red, _) => if up == Top then !red else CRootBlack(up)
    case InRight(up, _, _, red) => if up == Top then !red else CRootBlack(up)
  }

  ghost function Depth(c: Ctx): nat {
    match c
    case Top => 0
    case InLeft(up, _, _, _) => 1 + Depth(up)
    case InRight(up, _, _, _) => 1 + Depth(up)
  }

  // A tree is a red-black tree exactly when position and subtree are.
  lemma {:induction false} RBPlug(c: Ctx, t: Tree)
    ensures RB(Plug(c, t)) <==>
      Bal(t) && Calm(t) && CBal(c, BH(t)) && CCalm(c) && CRootBlack(c) && !(Red(t) && (CRed(c) || c == Top))
  {
    match c
    case Top =>
    case InLeft(up, n, red, r) => RBPlug(up, Fork(t, n, red, r));
    case InRight(up, l, n, red) => RBPlug(up, Fork(l, n, red, t));
  }

  // ---------- moving the focus ----------

  lemma WfUp(top: Node?, c: Ctx, t: Tree)
    requires c != Top && Wf(top, c, t)
    ensures c.InLeft? ==> Wf(top, c.up, Fork(t, c.n, c.red, c.r))
    ensures c.InRight? ==> Wf(top, c.up, Fork(c.l, c.n, c.red, t))
  {
  }

  lemma WfDown(top: Node?, c: Ctx, t: Tree)
    requires t.Fork? && Wf(top, c, t)
    ensures Wf(top, InLeft(c, t.n, t.red, t.r), t.l)
    ensures Wf(top, InRight(c, t.l, t.n, t.red), t.r)
  {
  }

  lemma SameInorder(c: Ctx, t: Tree, u: Tree)
    requires Inorder(t) == Inorder(u)
    ensures Inorder(Plug(c, t)) == Inorder(Plug(c, u))
  {
    InorderPlug(c, t);
    InorderPlug(c, u);
  }

  lemma SameNodes(c: Ctx, t: Tree, d: Ctx, u: Tree)
    requires Inorder(Plug(c, t)) == Inorder(Plug(d, u))
    ensures CNodes(c) + Nodes(t) == CNodes(d) + Nodes(u)
  {
    NodesPlug(c, t);
    NodesPlug(d, u);
    InorderNodes(Plug(c, t));
    InorderNodes(Plug(d, u));
  }

  lemma RotInorder(t: Tree)
    requires t.Fork?
    ensures t.r.Fork? ==> Inorder(RotL(t)) == Inorder(t)
    ensures t.l.Fork? ==> Inorder(RotR(t)) == Inorder(t)
  {
    if t.r.Fork? {
      Regroup(Inorder(t.l), [t.n], Inorder(t.r.l), [t.r.n], Inorder(t.r.r));
    }
    if t.l.Fork? {
      Regroup(Inorder(t.l.l), [t.l.n], Inorder(t.l.r), [t.n], Inorder(t.r));
    }
  }

  // ---------- colouring ----------

  ghost function Paint(t: Tree, red: bool): Tree
    requires t.Fork?
  {
    Fork(t.l, t.n, red, t.r)
  }

  /** rb_set_red, rb_set_black and rb_set_color */
  method SetColor(n: Node, red: bool, ghost top: Node?, ghost c: Ctx, ghost t: Tree)
    requires t.Fork? && t.n == n && Wf(top, c, t)
    modifies n`red
    ensures n.red == red && Wf(top, c, Paint(t, red))
  {
    n.red := red;
    assert Shape(t.l, n) && Shape(t.r, n);
  }
}
