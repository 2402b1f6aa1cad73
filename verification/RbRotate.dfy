/** The two rotations: pointer surgery at one position of the tree. */
module RbRotate {
  import opened RbShape

  /** struct rb_root */
  class RbRoot {
    var node: Node?
    constructor () ensures node == null { node := null; }
  }

  ghost function RotL(t: Tree): Tree
    requires t.Fork? && t.r.Fork?
  {
    Fork(Fork(t.l, t.n, t.red, t.r.l), t.r.n, t.r.red, t.r.r)
  }

  ghost function RotR(t: Tree): Tree
    requires t.Fork? && t.l.Fork?
  {
    Fork(t.l.l, t.l.n, t.l.red, Fork(t.l.r, t.n, t.red, t.r))
  }

  lemma RotNodes(t: Tree)
    requires t.Fork? && Distinct(t)
    ensures t.r.Fork? ==> Nodes(RotL(t)) == Nodes(t) && Distinct(RotL(t))
    ensures t.l.Fork? ==> Nodes(RotR(t)) == Nodes(t) && Distinct(RotR(t))
  {
    if t.r.Fork? {
      assert Distinct(t.r);
      assert Nodes(t.r) == Nodes(t.r.l) + {t.r.n} + Nodes(t.r.r);
      assert Distinct(Fork(t.l, t.n, t.red, t.r.l));
    }
    if t.l.Fork? {
      assert Distinct(t.l);
      assert Nodes(t.l) == Nodes(t.l.l) + {t.l.n} + Nodes(t.l.r);
      assert Distinct(Fork(t.l.r, t.n, t.red, t.r));
    }
  }

  /** rb_set_parent on the root of the subtree t. */
  method SetParent(rb: Node, p: Node?, ghost t: Tree, ghost was: Node?)
    requires t.Fork? && t.n == rb && Distinct(t) && Shape(t, was)
    modifies rb`parent
    ensures Shape(t, p) && rb.parent == p
  {
    rb.parent := p;
    assert Shape(t.l, rb) && Shape(t.r, rb);
  }

  /** The pointer to node held by its parent, or by the root, is redirected to repl. */
  method ReplaceChild(root: RbRoot, parent: Node?, node: Node, repl: Node?, ghost c: Ctx)
    requires Link(c, node, root.node, null) && CDistinct(c) && Up(c, null) == parent
    requires node !in CNodes(c)
    modifies root, if parent == null then {} else {parent}
    ensures Link(c, repl, root.node, null)
    ensures parent != null ==> parent.parent == old(parent.parent) && parent.red == old(parent.red)
  {
    if parent != null {
      if node == parent.left {
        parent.left := repl;
      } else {
        parent.right := repl;
      }
    } else {
      root.node := repl;
    }
  }

  // The two nodes of a left turn and the root of the moved subtree lie outside the others.
  lemma Apart(a: Tree, x: Node, red: bool, b: Tree, y: Node, yred: bool, d: Tree)
    requires Distinct(Fork(a, x, red, Fork(b, y, yred, d))) || Distinct(Fork(Fork(a, x, red, b), y, yred, d))
    ensures x != y && x !in Nodes(a) && x !in Nodes(b) && x !in Nodes(d)
    ensures y !in Nodes(a) && y !in Nodes(b) && y !in Nodes(d)
    ensures b.Fork? ==> b.n !in Nodes(a) && b.n !in Nodes(d) && b.n != x && b.n != y && Distinct(b)
  {
    assert Distinct(Fork(b, y, yred, d)) || Distinct(Fork(a, x, red, b));
  }

  // The middle subtree b changes hands, from the left of right to the right of node.
  method PassLeft(node: Node, right: Node, ghost b: Tree)
    requires Shape(b, right) && right.left == Ptr(b) && Distinct(b) && node !in Nodes(b) && right !in Nodes(b)
    modifies node`right, (if b.Fork? then {b.n} else {})`parent
    ensures Shape(b, node) && node.right == Ptr(b)
  {
    Alive(b);
    node.right := right.left;
    if node.right != null {
      SetParent(node.right, node, b, right);
    }
  }

  method PassRight(node: Node, left: Node, ghost b: Tree)
    requires Shape(b, left) && left.right == Ptr(b) && Distinct(b) && node !in Nodes(b) && left !in Nodes(b)
    modifies node`left, (if b.Fork? then {b.n} else {})`parent
    ensures Shape(b, node) && node.left == Ptr(b)
  {
    Alive(b);
    node.left := left.right;
    if node.left != null {
      SetParent(node.left, node, b, left);
    }
  }

  // The pointer changes of __rb_rotate_left that lie inside the rotated subtree.
  method TurnLeft(node: Node, ghost a: Tree, ghost red: bool, ghost b: Tree, ghost y: Node, ghost yred: bool,
                  ghost d: Tree, ghost p: Node?)
    returns (right: Node)
    requires Distinct(Fork(a, node, red, Fork(b, y, yred, d)))
    requires Shape(Fork(a, node, red, Fork(b, y, yred, d)), p)
    modifies node, y, if b.Fork? then {b.n} else {}
    ensures right == y && Shape(Fork(Fork(a, node, red, b), y, yred, d), p)
  {
    Apart(a, node, red, b, y, yred, d);
    Alive(a); Alive(b); Alive(d);
    assert Shape(Fork(b, y, yred, d), node);
    right := node.right;
    var parent := node.parent;
    PassLeft(node, right, b);
    right.left := node;
    right.parent := parent;
    node.parent := right;
    assert Shape(a, node);
    assert Shape(b, node);
    assert Shape(d, y);
    assert Shape(Fork(a, node, red, b), right);
  }

  method TurnRight(node: Node, ghost a: Tree, ghost y: Node, ghost yred: bool, ghost b: Tree, ghost red: bool,
                   ghost d: Tree, ghost p: Node?)
    returns (left: Node)
    requires Distinct(Fork(Fork(a, y, yred, b), node, red, d))
    requires Shape(Fork(Fork(a, y, yred, b), node, red, d), p)
    modifies node, y, if b.Fork? then {b.n} else {}
    ensures left == y && Shape(Fork(a, y, yred, Fork(b, node, red, d)), p)
  {
    Apart(a, y, yred, b, node, red, d);
    Alive(a); Alive(b); Alive(d);
    assert Shape(Fork(a, y, yred, b), node);
    left := node.left;
    var parent := node.parent;
    PassRight(node, left, b);
    left.right := node;
    left.parent := parent;
    node.parent := left;
    assert Shape(a, y);
    assert Shape(b, node);
    assert Shape(d, node);
    assert Shape(Fork(b, node, red, d), left);
  }

  /** __rb_rotate_left */
  method RotateLeft(root: RbRoot, node: Node, ghost c: Ctx, ghost t: Tree)
    requires t.Fork? && t.n == node && t.r.Fork?
    requires Wf(root.node, c, t)
    modifies root, CNodes(c), Nodes(t)
    ensures Wf(root.node, c, RotL(t))
  {
    RotNodes(t);
    hide CDistinct;
    Alive(t); CAlive(c);
    var parent := node.parent;
    var right := TurnLeft(node, t.l, t.red, t.r.l, t.r.n, t.r.red, t.r.r, Up(c, null));
    ReplaceChild(root, parent, node, right, c);
  }

  /** __rb_rotate_right */
  method RotateRight(root: RbRoot, node: Node, ghost c: Ctx, ghost t: Tree)
    requires t.Fork? && t.n == node && t.l.Fork?
    requires Wf(root.node, c, t)
    modifies root, CNodes(c), Nodes(t)
    ensures Wf(root.node, c, RotR(t))
  {
    RotNodes(t);
    hide CDistinct;
    Alive(t); CAlive(c);
    var parent := node.parent;
    var left := TurnRight(node, t.l.l, t.l.n, t.l.red, t.l.r, t.red, t.r, Up(c, null));
    ReplaceChild(root, parent, node, left, c);
  }
}
