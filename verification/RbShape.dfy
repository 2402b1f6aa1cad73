/** The node of the red-black tree and the ghost vocabulary for it.

    A tree of linked nodes is described by a value of type `Tree`; a position in it by a
    pair (context, subtree), where the context `Ctx` is the path from the position up to
    the root together with everything hanging off that path.  `Shape` and `Link` say that
    the left, right, parent and colour fields of the nodes agree with these values, so
    every property of the data structure is a property of plain values. */
module RbShape {

  /** struct rb_node embedded in struct treenode: the id and the data never change. */
  class Node {
    const id: nat
    const data: object?
    var parent: Node?
    var red: bool
    var left: Node?
    var right: Node?

    constructor (id: nat, data: object?)
      ensures this.id == id && this.data == data
      ensures parent == left == right == null && red
    {
      this.id, this.data := id, data;
      parent, left, right, red := null, null, null, true;
    }
  }

  datatype Tree = Leaf | Fork(l: Tree, n: Node, red: bool, r: Tree)

  datatype Ctx =
    | Top
    | InLeft(up: Ctx, n: Node, red: bool, r: Tree)   // the hole is the left child of n
    | InRight(up: Ctx, l: Tree, n: Node, red: bool)  // the hole is the right child of n

  // ---------- nodes, order, plugging ----------

  ghost function Nodes(t: Tree): set<Node> {
    match t
    case Leaf => {}
    case Fork(l, n, _, r) => Nodes(l) + {n} + Nodes(r)
  }

  ghost function CNodes(c: Ctx): set<Node> {
    match c
    case Top => {}
    case InLeft(up, n, _, r) => CNodes(up) + {n} + Nodes(r)
    case InRight(up, l, n, _) => CNodes(up) + {n} + Nodes(l)
  }

  ghost function Inorder(t: Tree): seq<Node> {
    match t
    case Leaf => []
    case Fork(l, n, _, r) => Inorder(l) + [n] + Inorder(r)
  }

  // The nodes in front of and behind the hole, in symmetric order.
  ghost function Before(c: Ctx): seq<Node> {
    match c
    case Top => []
    case InLeft(up, _, _, _) => Before(up)
    case InRight(up, l, n, _) => Before(up) + Inorder(l) + [n]
  }

  ghost function After(c: Ctx): seq<Node> {
    match c
    case Top => []
    case InLeft(up, n, _, r) => [n] + Inorder(r) + After(up)
    case InRight(up, _, _, _) => After(up)
  }

  ghost function Plug(c: Ctx, t: Tree): Tree {
    match c
    case Top => t
    case InLeft(up, n, red, r) => Plug(up, Fork(t, n, red, r))
    case InRight(up, l, n, red) => Plug(up, Fork(l, n, red, t))
  }

  lemma Regroup<T>(a: seq<T>, b: seq<T>, c: seq<T>, d: seq<T>, e: seq<T>)
    ensures a + (b + c + d) + e == a + b + (c + d + e)
    ensures a + (b + c + d) + e == (a + b + c) + d + e
    ensures a + b + (c + d + e) == (a + b + c) + d + e
    ensures a + (b + c + d) + e == (a + b) + c + (d + e)
  {
  }

  lemma {:induction false} InorderPlug(c: Ctx, t: Tree)
    ensures Inorder(Plug(c, t)) == Before(c) + Inorder(t) + After(c)
  {
    match c
    case Top =>
    case InLeft(up, n, red, r) =>
      InorderPlug(up, Fork(t, n, red, r));
      Regroup(Before(up), Inorder(t), [n], Inorder(r), After(up));
    case InRight(up, l, n, red) =>
      InorderPlug(up, Fork(l, n, red, t));
      Regroup(Before(up), Inorder(l), [n], Inorder(t), After(up));
  }

  lemma {:induction false} NodesPlug(c: Ctx, t: Tree)
    ensures Nodes(Plug(c, t)) == CNodes(c) + Nodes(t)
  {
    match c
    case Top =>
    case InLeft(up, n, red, r) => NodesPlug(up, Fork(t, n, red, r));
    case InRight(up, l, n, red) => NodesPlug(up, Fork(l, n, red, t));
  }

  ghost function Elems<T>(s: seq<T>): set<T> {
    set x | x in s
  }

  lemma {:induction false} InorderNodes(t: Tree)
    ensures Nodes(t) == Elems(Inorder(t))
  {
    match t
    case Leaf =>
    case Fork(l, n, _, r) =>
      InorderNodes(l);
      InorderNodes(r);
      assert Elems(Inorder(t)) == Elems(Inorder(l)) + {n} + Elems(Inorder(r));
  }

  // ---------- agreement with the heap ----------

  // The nodes a ghost description mentions exist in the current heap.
  lemma {:induction false} Alive(t: Tree)
    ensures forall x :: x in Nodes(t) ==> allocated(x)
  {
    match t
    case Leaf =>
    case Fork(l, _, _, r) => Alive(l); Alive(r);
  }

  lemma {:induction false} CAlive(c: Ctx)
    ensures forall x :: x in CNodes(c) ==> allocated(x)
  {
    match c
    case Top =>
    case InLeft(up, _, _, r) => CAlive(up); Alive(r);
    case InRight(up, l, _, _) => CAlive(up); Alive(l);
  }

  ghost function Ptr(t: Tree): Node? {
    match t
    case Leaf => null
    case Fork(_, n, _, _) => n
  }

  // The node that holds the hole; base stands for the parent of a topmost hole.
  ghost function Up(c: Ctx, base: Node?): Node? {
    match c
    case Top => base
    case InLeft(_, n, _, _) => n
    case InRight(_, _, n, _) => n
  }

  ghost predicate Distinct(t: Tree) {
    match t
    case Leaf => true
    case Fork(l, n, _, r) =>
      n !in Nodes(l) && n !in Nodes(r) && Nodes(l) !! Nodes(r) && Distinct(l) && Distinct(r)
  }

  ghost predicate CDistinct(c: Ctx) {
    match c
    case Top => true
    case InLeft(up, n, _, r) =>
      n !in CNodes(up) && n !in Nodes(r) && CNodes(up) !! Nodes(r) && CDistinct(up) && Distinct(r)
    case InRight(up, l, n, _) =>
      n !in CNodes(up) && n !in Nodes(l) && CNodes(up) !! Nodes(l) && CDistinct(up) && Distinct(l)
  }

  ghost predicate Shape(t: Tree, p: Node?)
    reads Nodes(t)
  {
    match t
    case Leaf => true
    case Fork(l, n, red, r) =>
      n.parent == p && n.red == red && n.left == Ptr(l) && n.right == Ptr(r) &&
      Shape(l, n) && Shape(r, n)
  }

  /** hole is the pointer stored in the hole, top the pointer to the topmost node and base
      the parent of the topmost node. */
  ghost predicate Link(c: Ctx, hole: Node?, top: Node?, base: Node?)
    reads CNodes(c)
  {
    match c
    case Top => hole == top
    case InLeft(up, n, red, r) =>
      n.parent == Up(up, base) && n.red == red && n.left == hole && n.right == Ptr(r) &&
      Shape(r, n) && Link(up, n, top, base)
    case InRight(up, l, n, red) =>
      n.parent == Up(up, base) && n.red == red && n.right == hole && n.left == Ptr(l) &&
      Shape(l, n) && Link(up, n, top, base)
  }

  /** The linked nodes form the tree Plug(c, t), top is its root and t sits at position c. */
  ghost predicate Wf(top: Node?, c: Ctx, t: Tree)
    reads CNodes(c), Nodes(t)
  {
    Distinct(t) && CDistinct(c) && Nodes(t) !! CNodes(c) &&
    Shape(t, Up(c, null)) && Link(c, Ptr(t), top, null)
  }

  // What Wf says about the root of a subtree and the node above it.
  lemma WfFacts(top: Node?, c: Ctx, t: Tree)
    requires Wf(top, c, t) && t.Fork?
    ensures Link(c, t.n, top, null) && CDistinct(c) && t.n !in CNodes(c) && t.n.parent == Up(c, null)
    ensures Up(c, null) != null ==> Up(c, null) in CNodes(c) && Up(c, null) !in Nodes(t)
    ensures Shape(t.l, t.n) && Shape(t.r, t.n) && Distinct(t.l) && Distinct(t.r)
    ensures t.n.left == Ptr(t.l) && t.n.right == Ptr(t.r) && t.n.red == t.red
    ensures Nodes(t) == Nodes(t.l) + {t.n} + Nodes(t.r) && Nodes(t.l) !! Nodes(t.r) && t.n !in Nodes(t.l) &&
      t.n !in Nodes(t.r)
    ensures CNodes(c) !! Nodes(t) && CNodes(c) !! Nodes(t.l) && CNodes(c) !! Nodes(t.r)
  {
  }

  // A tree below a nonempty context is not the whole tree.
  lemma {:induction false} TopInContext(c: Ctx, hole: Node?, top: Node?, base: Node?)
    requires c != Top && Link(c, hole, top, base)
    ensures top != null && top in CNodes(c)
  {
    match c
    case Top =>
    case InLeft(up, n, _, _) => if up != Top { TopInContext(up, n, top, base); }
    case InRight(up, _, n, _) => if up != Top { TopInContext(up, n, top, base); }
  }

  // Moving the whole tree to the focus, and back to any position of it.
  lemma {:induction false} WfPlug(top: Node?, c: Ctx, t: Tree)
    requires Wf(top, c, t)
    ensures Wf(top, Top, Plug(c, t))
    decreases c
  {
    match c
    case Top =>
    case InLeft(up, n, red, r) => WfPlug(top, up, Fork(t, n, red, r));
    case InRight(up, l, n, red) => WfPlug(top, up, Fork(l, n, red, t));
  }
}
