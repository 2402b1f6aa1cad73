/** rb_erase: unlinking a node, by way of its in-order successor if it has two children. */
module RbUnlink {
  import opened RbShape
  import opened RbRotate
  import opened RbTheory
  import opened RbErase

  // The position d inside a subtree, seen from the root of the whole tree: b is the subtree's own place.
  ghost function Under(d: Ctx, b: Ctx): Ctx {
    match d
    case Top => b
    case InLeft(up, n, red, r) => InLeft(Under(up, b), n, red, r)
    case InRight(up, l, n, red) => InRight(Under(up, b), l, n, red)
  }

  lemma {:induction false} PlugUnder(d: Ctx, b: Ctx, t: Tree)
    ensures Plug(Under(d, b), t) == Plug(b, Plug(d, t))
  {
    match d
    case Top =>
    case InLeft(up, n, red, r) => PlugUnder(up, b, Fork(t, n, red, r));
    case InRight(up, l, n, red) => PlugUnder(up, b, Fork(l, n, red, t));
  }

  // Moving the focus down into a subtree.
  lemma {:induction false} WfInto(top: Node?, b: Ctx, d: Ctx, t: Tree)
    requires Wf(top, b, Plug(d, t))
    ensures Wf(top, Under(d, b), t)
    decreases d
  {
    match d
    case Top =>
    case InLeft(up, n, red, r) =>
      WfInto(top, b, up, Fork(t, n, red, r));
      WfDown(top, Under(up, b), Fork(t, n, red, r));
    case InRight(up, l, n, red) =>
      WfInto(top, b, up, Fork(l, n, red, t));
      WfDown(top, Under(up, b), Fork(l, n, red, t));
  }

  // The same for a subtree on its own, whose topmost node top has parent base.
  ghost predicate SubWf(d: Ctx, t: Tree, top: Node?, base: Node?)
    reads CNodes(d), Nodes(t)
  {
    Distinct(t) && CDistinct(d) && Nodes(t) !! CNodes(d) && Shape(t, Up(d, base)) && Link(d, Ptr(t), top, base)
  }

  lemma {:induction false} SubOut(d: Ctx, t: Tree, top: Node?, base: Node?)
    requires SubWf(d, t, top, base)
    ensures Distinct(Plug(d, t)) && Shape(Plug(d, t), base) && Ptr(Plug(d, t)) == top
    decreases d
  {
    match d
    case Top =>
    case InLeft(up, n, red, r) => SubOut(up, Fork(t, n, red, r), top, base);
    case InRight(up, l, n, red) => SubOut(up, Fork(l, n, red, t), top, base);
  }

  lemma {:induction false} SubInto(d: Ctx, t: Tree, base: Node?)
    requires Distinct(Plug(d, t)) && Shape(Plug(d, t), base)
    ensures SubWf(d, t, Ptr(Plug(d, t)), base)
    decreases d
  {
    match d
    case Top =>
    case InLeft(up, n, red, r) =>
      SubInto(up, Fork(t, n, red, r), base);
      assert SubWf(d, t, Ptr(Plug(d, t)), base);
    case InRight(up, l, n, red) =>
      SubInto(up, Fork(l, n, red, t), base);
      assert SubWf(d, t, Ptr(Plug(d, t)), base);
  }

  // A hole at the left end of a subtree.
  ghost predicate Leftmost(d: Ctx) {
    d == Top || (d.InLeft? && Leftmost(d.up))
  }

  lemma {:induction false} LeftmostInorder(d: Ctx, s: Node, cs: bool, sr: Tree)
    requires Leftmost(d)
    ensures Inorder(Plug(d, Fork(Leaf, s, cs, sr))) == [s] + Inorder(Plug(d, sr))
  {
    LeftmostBefore(d);
    InorderPlug(d, Fork(Leaf, s, cs, sr));
    InorderPlug(d, sr);
    assert Inorder(Fork(Leaf, s, cs, sr)) == [s] + Inorder(sr);
  }

  lemma {:induction false} LeftmostBefore(d: Ctx)
    requires Leftmost(d)
    ensures Before(d) == []
  {
    if d != Top { LeftmostBefore(d.up); }
  }

  // Colours and heights around a position do not depend on which node sits above the subtree.
  lemma {:induction false} SameRules(d: Ctx, c: Ctx, l: Tree, n: Node, n': Node, red: bool)
    ensures var b, b' := InRight(c, l, n, red), InRight(c, l, n', red);
      CRed(Under(d, b')) == CRed(Under(d, b)) &&
      CCalm(Under(d, b')) == CCalm(Under(d, b)) && CRootBlack(Under(d, b')) == CRootBlack(Under(d, b))
    ensures var b, b' := InRight(c, l, n, red), InRight(c, l, n', red);
      forall h :: CBal(Under(d, b'), h) == CBal(Under(d, b), h)
  {
    match d
    case Top =>
    case InLeft(up, _, _, _) => SameRules(up, c, l, n, n', red);
    case InRight(up, _, _, _) => SameRules(up, c, l, n, n', red);
  }

  // ---------- pointer surgery ----------

  /** The successor s, which has no left child, is bypassed: its place, the end of the
      left-hand path d, goes to its right child. */
  method Bypass(parent: Node, child: Node?, ghost d: Ctx, ghost s: Node, ghost cs: bool, ghost sr: Tree,
                ghost base: Node)
    requires Leftmost(d) && d != Top && parent == d.n && child == Ptr(sr)
    requires SubWf(d, Fork(Leaf, s, cs, sr), Ptr(Plug(d, Fork(Leaf, s, cs, sr))), base)
    modifies parent`left, if child == null then {} else {child}
    ensures Shape(Plug(d, sr), base) && Distinct(Plug(d, sr))
    ensures Ptr(Plug(d, sr)) == Ptr(Plug(d, Fork(Leaf, s, cs, sr)))
  {
    CAlive(d); Alive(sr);
    ghost var top := Ptr(Plug(d, Fork(Leaf, s, cs, sr)));
    if child != null {
      SetParent(child, parent, sr, s);
    }
    parent.left := child;
    assert Shape(sr, parent);
    assert Shape(d.r, parent);
    SubOut(d, sr, top, base);
  }

  /** s takes over parent, colour and left subtree of old_. */
  method TakePlace(s: Node, old_: Node, ghost l: Tree)
    requires l.Fork? && Distinct(l) && Shape(l, old_) && old_.left == l.n
    requires s !in Nodes(l) && old_ !in Nodes(l) && s != old_
    modifies s`parent, s`red, s`left, l.n`parent
    ensures s.parent == old_.parent && s.red == old_.red && s.left == l.n && Shape(l, s)
  {
    s.parent := old_.parent;
    s.red := old_.red;
    s.left := old_.left;
    SetParent(old_.left, s, l, old_);
  }

  // The successor is the right child of the erased node.
  method SpliceNear(root: RbRoot, old_: Node, s: Node, ghost c: Ctx, ghost l: Tree, ghost red: bool, ghost sr: Tree)
    requires l.Fork? && Wf(root.node, InRight(c, l, old_, red), Fork(Leaf, s, s.red, sr))
    modifies root, CNodes(c), Nodes(l), s
    ensures Wf(root.node, InRight(c, l, s, red), sr)
  {
    CAlive(c); Alive(l); Alive(sr);
    ReplaceChild(root, old_.parent, old_, s, c);
    TakePlace(s, old_, l);
  }

  // s also takes over the right subtree, from which it has been removed.
  method TakeBoth(s: Node, old_: Node, ghost l: Tree, ghost r: Tree)
    requires l.Fork? && r.Fork? && Distinct(l) && Distinct(r) && Nodes(l) !! Nodes(r) && s != old_
    requires Shape(l, old_) && old_.left == l.n && Shape(r, old_) && old_.right == r.n
    requires s !in Nodes(l) && old_ !in Nodes(l) && s !in Nodes(r) && old_ !in Nodes(r)
    modifies s, l.n`parent, r.n`parent
    ensures s.parent == old_.parent && s.red == old_.red
    ensures s.left == l.n && Shape(l, s) && s.right == r.n && Shape(r, s)
  {
    Alive(l); Alive(r);
    s.right := old_.right;
    SetParent(old_.right, s, r, old_);
    TakePlace(s, old_, l);
  }

  lemma {:induction false} PlugFork(d: Ctx, t: Tree)
    requires d != Top || t.Fork?
    ensures Plug(d, t).Fork?
  {
    match d
    case Top =>
    case InLeft(up, n, red, r) => PlugFork(up, Fork(t, n, red, r));
    case InRight(up, l, n, red) => PlugFork(up, Fork(l, n, red, t));
  }

  // The node sets around the exchange of old_ for s.
  lemma RemovedNodes(d: Ctx, s: Node, cs: bool, sr: Tree)
    requires d != Top && CDistinct(d) && Nodes(Fork(Leaf, s, cs, sr)) !! CNodes(d) && s !in Nodes(sr)
    ensures Plug(d, sr).Fork? && Plug(d, Fork(Leaf, s, cs, sr)).Fork?
    ensures Nodes(Plug(d, Fork(Leaf, s, cs, sr))) == Nodes(Plug(d, sr)) + {s} && s !in Nodes(Plug(d, sr))
  {
    NodesPlug(d, Fork(Leaf, s, cs, sr));
    NodesPlug(d, sr);
    PlugFork(d, sr);
    PlugFork(d, Fork(Leaf, s, cs, sr));
    assert s in Nodes(Fork(Leaf, s, cs, sr));
  }

  lemma Removed(c: Ctx, l: Tree, old_: Node, red: bool, r: Tree, s: Node, r': Tree)
    requires Distinct(Fork(l, old_, red, r)) && Nodes(Fork(l, old_, red, r)) !! CNodes(c)
    requires Nodes(r) == Nodes(r') + {s} && s !in Nodes(r')
    ensures Nodes(l) !! Nodes(r') && s != old_ && s !in Nodes(l)
    ensures old_ !in Nodes(l) && old_ !in Nodes(r')
    ensures s !in CNodes(c) && (l.Fork? ==> l.n !in CNodes(c)) && Nodes(r') !! CNodes(c)
    ensures Nodes(Fork(l, s, red, r')) !! CNodes(c)
  {
    assert s in Nodes(r);
    assert Nodes(Fork(l, old_, red, r)) == Nodes(l) + {old_} + Nodes(r);
    assert Nodes(Fork(l, s, red, r')) == Nodes(l) + {s} + Nodes(r');
  }

  lemma EndOfPath(d: Ctx, s: Node, cs: bool, sr: Tree, top: Node?, base: Node)
    requires Leftmost(d) && d != Top && SubWf(d, Fork(Leaf, s, cs, sr), top, base)
    ensures s.parent == d.n && s.right == Ptr(sr) && d.n in CNodes(d)
  {
  }

  // The part of the exchange below old_.
  method SpliceBelow(old_: Node, s: Node, ghost top: Node?, ghost c: Ctx, ghost l: Tree, ghost d: Ctx,
                     ghost cs: bool, ghost sr: Tree)
    requires l.Fork? && Leftmost(d) && d != Top && Distinct(l) && Shape(l, old_) && old_.left == l.n
    requires SubWf(d, Fork(Leaf, s, cs, sr), old_.right, old_)
    requires Plug(d, sr).Fork? && Ptr(Plug(d, Fork(Leaf, s, cs, sr))) == old_.right
    requires Nodes(Plug(d, Fork(Leaf, s, cs, sr))) == Nodes(Plug(d, sr)) + {s}
    requires Nodes(l) !! Nodes(Plug(d, sr)) && s != old_
    requires s !in Nodes(l) && old_ !in Nodes(l) && s !in Nodes(Plug(d, sr)) && old_ !in Nodes(Plug(d, sr))
    requires Link(c, s, top, null) && s !in CNodes(c) && l.n !in CNodes(c) && Nodes(Plug(d, sr)) !! CNodes(c)
    modifies s, l.n, Nodes(Plug(d, sr))
    ensures Link(c, s, top, null)
    ensures s.parent == old_.parent && s.red == old_.red && Distinct(Plug(d, sr))
    ensures s.left == l.n && Shape(l, s) && s.right == Ptr(Plug(d, sr)) && Shape(Plug(d, sr), s)
  {
    hide Plug, Inorder, Link, Distinct, CDistinct, Shape, SubWf, Leftmost;
    ghost var r' := Plug(d, sr);
    Alive(l); Alive(r'); CAlive(c);
    NodesPlug(d, sr);
    EndOfPath(d, s, cs, sr, old_.right, old_);
    Bypass(s.parent, s.right, d, s, cs, sr, old_);
    TakeBoth(s, old_, l, r');
  }

  // The successor lies further down.
  method SpliceFar(root: RbRoot, old_: Node, s: Node, ghost c: Ctx, ghost l: Tree, ghost red: bool,
                   ghost d: Ctx, ghost cs: bool, ghost sr: Tree)
    requires l.Fork? && Leftmost(d) && d != Top
    requires Wf(root.node, c, Fork(l, old_, red, Plug(d, Fork(Leaf, s, cs, sr))))
    modifies root, CNodes(c), Nodes(l), Nodes(Plug(d, Fork(Leaf, s, cs, sr)))
    ensures Wf(root.node, c, Fork(l, s, red, Plug(d, sr)))
  {
    hide Plug, Inorder, CNodes, Link, CDistinct;
    ghost var r := Plug(d, Fork(Leaf, s, cs, sr));
    CAlive(c); Alive(l); Alive(r);
    WfFacts(root.node, c, Fork(l, old_, red, r));
    SubInto(d, Fork(Leaf, s, cs, sr), old_);
    RemovedNodes(d, s, cs, sr);
    Removed(c, l, old_, red, r, s, Plug(d, sr));
    ReplaceChild(root, old_.parent, old_, s, c);
    assert Shape(r, old_) && Shape(l, old_);
    SubInto(d, Fork(Leaf, s, cs, sr), old_);
    SpliceBelow(old_, s, root.node, c, l, d, cs, sr);
  }
}
