/** Intrusive red-black tree: nodes with parent links that are rotated, recoloured and
    swapped in place (runtime/src/Base/RBTree.h).

    The heap is described by two ghost values. `Tree` is the shape of a subtree; `Ctx` is the
    path from a subtree up to the root, with the side trees hanging off that path. `Focus(c, t, h)`
    says that the fields recorded in `h` form the shape `t` plugged into `c`: every child, parent
    and colour field agrees, and no node occurs twice. */
module RedBlackShapes {

  class Node {
    const key: int
    var parent: Node?
    var black: bool
    var left: Node?
    var right: Node?

    constructor (key: int)
      ensures this.key == key && parent == null && !black && left == null && right == null
    {
      this.key := key;
      parent, black, left, right := null, false, null, null;
    }

    predicate IsLeftChild()
      reads this, parent
    {
      parent != null && parent.left == this
    }

    predicate IsRightChild()
      reads this, parent
    {
      parent != null && parent.right == this
    }

    method ReplaceChild(oldChild: Node, newChild: Node?)
      requires left == oldChild || right == oldChild
      modifies this`left, this`right
      ensures left == if old(left) == oldChild then newChild else old(left)
      ensures right == if old(left) != oldChild && old(right) == oldChild then newChild else old(right)
    {
      if left == oldChild {
        left := newChild;
      } else if right == oldChild {
        right := newChild;
      } else {
        assert false;
      }
    }

    method SetBlack(ghost c: Ctx, ghost t: Tree, ghost s: set<Node>)
      requires t.Fork? && t.n == this && Focus(c, t, Fields(s))
      modifies this`black
      ensures black && Focus(c, Painted(t, true), Fields(s))
    {
      ghost var h := Fields(s);
      black := true;
      Recoloured(c, t, true, h, Fields(s));
    }

    method SetRed(ghost c: Ctx, ghost t: Tree, ghost s: set<Node>)
      requires t.Fork? && t.n == this && Focus(c, t, Fields(s))
      modifies this`black
      ensures !black && Focus(c, Painted(t, false), Fields(s))
    {
      ghost var h := Fields(s);
      black := false;
      Recoloured(c, t, false, h, Fields(s));
    }

    /** This node goes down, its right child comes up. */
    method RotateLeft(ghost c: Ctx, ghost t: Tree, ghost s: set<Node>) returns (up: Node)
      requires t.Fork? && t.n == this && t.r.Fork? && !t.r.l.Doomed?
      requires Focus(c, t, Fields(s))
      modifies s
      ensures Focus(c, RotL(t), Fields(s))
      ensures up == t.r.n
    {
      ghost var h := Fields(s);
      RotationIsSafe(c, t, t.r, t.r.l, h);
      var oldRight := right;
      right := oldRight.left;
      if right != null {
        right.parent := this;
      }
      oldRight.parent := parent;
      if parent != null {
        parent.ReplaceChild(this, oldRight);
      }
      oldRight.left := this;
      parent := oldRight;
      up := oldRight;
      RotatedLeft(c, t, h, Fields(s));
    }

    /** This node goes down, its left child comes up. */
    method RotateRight(ghost c: Ctx, ghost t: Tree, ghost s: set<Node>) returns (up: Node)
      requires t.Fork? && t.n == this && t.l.Fork? && !t.l.r.Doomed?
      requires Focus(c, t, Fields(s))
      modifies s
      ensures Focus(c, RotR(t), Fields(s))
      ensures up == t.l.n
    {
      ghost var h := Fields(s);
      RotationIsSafe(c, t, t.l, t.l.r, h);
      var oldLeft := left;
      left := oldLeft.right;
      if left != null {
        left.parent := this;
      }
      oldLeft.parent := parent;
      if parent != null {
        parent.ReplaceChild(this, oldLeft);
      }
      oldLeft.right := this;
      parent := oldLeft;
      up := oldLeft;
      RotatedRight(c, t, h, Fields(s));
    }
  }

  // ---- heap contents -----------------------------------------------------------------------

  datatype Cell = Cell(parent: Node?, black: bool, left: Node?, right: Node?)

  type Store = map<Node, Cell>

  ghost function Fields(s: set<Node>): (h: Store)
    reads s
    ensures h.Keys == s
  {
    map n: Node | n in s :: Cell(n.parent, n.black, n.left, n.right)
  }

  // ---- shapes ------------------------------------------------------------------------------

  /** `Doomed(n, p)` is the black leaf `n` below `p` that is being removed: it is still linked in
      but already counts as absent. */
  datatype Tree =
    | Leaf
    | Fork(l: Tree, n: Node, b: bool, r: Tree)
    | Doomed(n: Node, p: Node)

  /** `L`: the hole is the left child of `n`, whose right subtree is `side`; `R` is the mirror. */
  datatype Ctx =
    | Top
    | L(n: Node, b: bool, side: Tree, up: Ctx)
    | R(n: Node, b: bool, side: Tree, up: Ctx)

  ghost function Root(t: Tree): Node? {
    match t case Leaf => null case Fork(_, n, _, _) => n case Doomed(n, _) => n
  }

  ghost function Nodes(t: Tree): (s: set<Node>)
    ensures !t.Leaf? ==> Root(t) in s
  {
    match t case Leaf => {} case Fork(l, n, _, r) => Nodes(l) + {n} + Nodes(r) case Doomed(n, _) => {n}
  }

  ghost function Parent(c: Ctx): Node? {
    if c.Top? then null else c.n
  }

  ghost function CtxNodes(c: Ctx): (s: set<Node>)
    ensures !c.Top? ==> Parent(c) in s
  {
    if c.Top? then {} else {c.n} + Nodes(c.side) + CtxNodes(c.up)
  }

  ghost predicate TreeAt(t: Tree, p: Node?, h: Store) {
    match t
    case Leaf => true
    case Doomed(n, q) => p == q && n in h && h[n] == Cell(p, true, null, null)
    case Fork(l, n, b, r) =>
      && n in h && h[n] == Cell(p, b, Root(l), Root(r))
      && n !in Nodes(l) && n !in Nodes(r) && Nodes(l) !! Nodes(r)
      && TreeAt(l, n, h) && TreeAt(r, n, h)
  }

  ghost predicate CtxAt(c: Ctx, child: Node?, h: Store) {
    c.Top? ||
    (&& c.n in h
     && h[c.n] == (if c.L? then Cell(Parent(c.up), c.b, child, Root(c.side))
         else Cell(Parent(c.up), c.b, Root(c.side), child))
     && c.n !in Nodes(c.side) && c.n !in CtxNodes(c.up) && Nodes(c.side) !! CtxNodes(c.up)
     && TreeAt(c.side, c.n, h) && CtxAt(c.up, c.n, h))
  }

  ghost predicate Focus(c: Ctx, t: Tree, h: Store) {
    CtxAt(c, Root(t), h) && TreeAt(t, Parent(c), h) && CtxNodes(c) !! Nodes(t)
  }

  // ---- framing -----------------------------------------------------------------------------

  ghost predicate Agree(s: set<Node>, h: Store, k: Store) {
    forall n :: n in s && n in h ==> n in k && k[n] == h[n]
  }

  lemma TreeFrame(t: Tree, p: Node?, h: Store, k: Store)
    requires TreeAt(t, p, h) && Agree(Nodes(t), h, k)
    ensures TreeAt(t, p, k)
  {
    if t.Fork? {
      TreeFrame(t.l, t.n, h, k);
      TreeFrame(t.r, t.n, h, k);
    }
  }

  lemma CtxFrame(c: Ctx, child: Node?, h: Store, k: Store)
    requires CtxAt(c, child, h) && Agree(CtxNodes(c), h, k)
    ensures CtxAt(c, child, k)
  {
    if !c.Top? {
      TreeFrame(c.side, c.n, h, k);
      CtxFrame(c.up, c.n, h, k);
    }
  }

  lemma FocusFrame(c: Ctx, t: Tree, h: Store, k: Store)
    requires Focus(c, t, h) && Agree(CtxNodes(c) + Nodes(t), h, k)
    ensures Focus(c, t, k)
  {
    TreeFrame(t, Parent(c), h, k);
    CtxFrame(c, Root(t), h, k);
  }

  /** A subtree whose root only changed its parent link. */
  lemma MovedSubtree(t: Tree, p: Node?, q: Node?, h: Store, k: Store)
    requires !t.Doomed? && TreeAt(t, p, h)
    requires t.Fork? ==> t.n in k && k[t.n] == h[t.n].(parent := q)
    requires Agree(Nodes(t) - {Root(t)}, h, k)
    ensures TreeAt(t, q, k)
  {
    if t.Fork? {
      TreeFrame(t.l, t.n, h, k);
      TreeFrame(t.r, t.n, h, k);
    }
  }

  /** A context whose hole only changed from `x` to `y`. */
  lemma MovedHole(c: Ctx, x: Node?, y: Node?, h: Store, k: Store)
    requires CtxAt(c, x, h)
    requires c.L? ==> c.n in k && k[c.n] == h[c.n].(left := y)
    requires c.R? ==> c.n in k && k[c.n] == h[c.n].(right := y)
    requires Agree(CtxNodes(c) - {Parent(c)}, h, k)
    ensures CtxAt(c, y, k)
  {
    if !c.Top? {
      TreeFrame(c.side, c.n, h, k);
      CtxFrame(c.up, c.n, h, k);
    }
  }

  // ---- rotations ---------------------------------------------------------------------------

  ghost function RotL(t: Tree): Tree
    requires t.Fork? && t.r.Fork?
  {
    Fork(Fork(t.l, t.n, t.b, t.r.l), t.r.n, t.r.b, t.r.r)
  }

  ghost function RotR(t: Tree): Tree
    requires t.Fork? && t.l.Fork?
  {
    Fork(t.l.l, t.l.n, t.l.b, Fork(t.l.r, t.n, t.b, t.r))
  }

  lemma RotLFacts(t: Tree)
    requires t.Fork? && t.r.Fork?
    ensures In(RotL(t)) == In(t) && (Whole(t) ==> Whole(RotL(t)))
  {
    assert In(RotL(t)) == (In(t.l) + [t.n] + In(t.r.l)) + [t.r.n] + In(t.r.r);
    if Whole(t) { assert Whole(t.l) && Whole(t.r); assert Whole(t.r.l) && Whole(t.r.r) && Whole(RotL(t).l); }
  }

  lemma RotRFacts(t: Tree)
    requires t.Fork? && t.l.Fork?
    ensures In(RotR(t)) == In(t) && (Whole(t) ==> Whole(RotR(t)))
  {
    assert In(RotR(t)) == In(t.l.l) + [t.l.n] + (In(t.l.r) + [t.n] + In(t.r));
    if Whole(t) { assert Whole(t.l) && Whole(t.r); assert Whole(t.l.l) && Whole(t.l.r) && Whole(RotR(t).r); }
  }

  /** The nodes a rotation writes are distinct and allocated. */
  lemma RotationIsSafe(c: Ctx, t: Tree, child: Tree, mid: Tree, h: Store)
    requires t.Fork? && child.Fork? && (child == t.l || child == t.r) && (mid == child.l || mid == child.r)
    requires Focus(c, t, h)
    ensures t.n in h && child.n in h && t.n != child.n
    ensures !mid.Leaf? ==> Root(mid) in h && Root(mid) != t.n && Root(mid) != child.n
    ensures !c.Top? ==> c.n in h && c.n != t.n && c.n != child.n && c.n != Root(mid)
    ensures c.R? ==> h[c.n].left != t.n
    ensures h[t.n].parent == Parent(c) && TreeAt(child, t.n, h)
  {
    assert TreeAt(child, t.n, h);
    assert TreeAt(mid, child.n, h);
  }

  ghost predicate Relinked(c: Ctx, y: Node, h: Store, k: Store) {
    && (c.L? ==> c.n in h && c.n in k && k[c.n] == h[c.n].(left := y))
    && (c.R? ==> c.n in h && c.n in k && k[c.n] == h[c.n].(right := y))
  }

  lemma RotatedLeft(c: Ctx, t: Tree, h: Store, k: Store)
    requires t.Fork? && t.r.Fork? && !t.r.l.Doomed?
    requires Focus(c, t, h)
    requires t.n in k && k[t.n] == Cell(t.r.n, t.b, Root(t.l), Root(t.r.l))
    requires t.r.n in k && k[t.r.n] == Cell(Parent(c), t.r.b, t.n, Root(t.r.r))
    requires t.r.l.Fork? ==> t.r.l.n in k && t.r.l.n in h && k[t.r.l.n] == h[t.r.l.n].(parent := t.n)
    requires Relinked(c, t.r.n, h, k)
    requires forall m :: m in h && m != t.n && m != t.r.n && m != Root(t.r.l) && m != Parent(c) ==>
      m in k && k[m] == h[m]
    ensures Focus(c, RotL(t), k)
  {
    var Fork(a, x, cx, Fork(b, y, cy, d)) := t;
    TreeFrame(a, x, h, k);
    assert TreeAt(t.r, x, h);
    TreeFrame(d, y, h, k);
    MovedSubtree(b, y, x, h, k);
    MovedHole(c, x, y, h, k);
  }

  lemma RotatedRight(c: Ctx, t: Tree, h: Store, k: Store)
    requires t.Fork? && t.l.Fork? && !t.l.r.Doomed?
    requires Focus(c, t, h)
    requires t.n in k && k[t.n] == Cell(t.l.n, t.b, Root(t.l.r), Root(t.r))
    requires t.l.n in k && k[t.l.n] == Cell(Parent(c), t.l.b, Root(t.l.l), t.n)
    requires t.l.r.Fork? ==> t.l.r.n in k && t.l.r.n in h && k[t.l.r.n] == h[t.l.r.n].(parent := t.n)
    requires Relinked(c, t.l.n, h, k)
    requires forall m :: m in h && m != t.n && m != t.l.n && m != Root(t.l.r) && m != Parent(c) ==>
      m in k && k[m] == h[m]
    ensures Focus(c, RotR(t), k)
  {
    var Fork(Fork(a, y, cy, b), x, cx, d) := t;
    TreeFrame(d, x, h, k);
    assert TreeAt(t.l, x, h);
    TreeFrame(a, y, h, k);
    MovedSubtree(b, y, x, h, k);
    MovedHole(c, x, y, h, k);
  }

  // ---- moving the focus ----------------------------------------------------------------------

  /** The subtree one level up from the hole of `c`. */
  ghost function Close(c: Ctx, t: Tree): (r: Tree)
    requires !c.Top?
    ensures r.Fork? && r.n == c.n && r.b == c.b
  {
    if c.L? then Fork(t, c.n, c.b, c.side) else Fork(c.side, c.n, c.b, t)
  }

  ghost function Painted(t: Tree, b: bool): (r: Tree)
    requires t.Fork?
    ensures r.Fork? && r.n == t.n && r.b == b
  {
    Fork(t.l, t.n, b, t.r)
  }

  lemma FocusUp(c: Ctx, t: Tree, h: Store)
    requires !c.Top?
    ensures Focus(c, t, h) <==> Focus(c.up, Close(c, t), h)
  {
  }

  ghost function RootOf(c: Ctx, child: Node?): Node? {
    if c.Top? then child else RootOf(c.up, c.n)
  }

  /** Which child the focus is can be read off the parent's links, as the code does. */
  lemma HoleSide(c: Ctx, x: Node, h: Store)
    requires !c.Top? && CtxAt(c, x, h) && x !in CtxNodes(c)
    ensures c.n in h && (c.L? <==> h[c.n].left == x) && (c.R? <==> h[c.n].right == x)
  {
  }

  lemma WhichChild(c: Ctx, t: Tree, h: Store)
    requires !c.Top? && !t.Leaf? && Focus(c, t, h)
    ensures c.n in h && Root(t) in h && h[Root(t)].parent == c.n
    ensures c.L? <==> h[c.n].left == Root(t)
    ensures c.R? <==> h[c.n].right == Root(t)
  {
  }

  lemma RootOfContext(c: Ctx, x: Node?, y: Node?)
    requires !c.Top?
    ensures RootOf(c, x) == RootOf(c, y) && RootOf(c, x) in CtxNodes(c)
  {
    if !c.up.Top? { RootOfContext(c.up, c.n, c.n); }
  }

  /** The root field names the focus exactly when the focus is the whole tree. */
  lemma RootIsFocus(c: Ctx, t: Tree, h: Store)
    requires !t.Leaf? && Focus(c, t, h)
    ensures RootOf(c, Root(t)) == Root(t) <==> c.Top?
  {
    if !c.Top? { RootOfContext(c, Root(t), Root(t)); }
  }

  lemma Recoloured(c: Ctx, t: Tree, b: bool, h: Store, k: Store)
    requires t.Fork? && Focus(c, t, h)
    requires t.n in k && k[t.n] == h[t.n].(black := b)
    requires forall m :: m in h && m != t.n ==> m in k && k[m] == h[m]
    ensures Focus(c, Painted(t, b), k)
  {
    TreeFrame(t.l, t.n, h, k);
    TreeFrame(t.r, t.n, h, k);
    CtxFrame(c, t.n, h, k);
  }

  // ---- order and balance ---------------------------------------------------------------------

  /** The nodes in order; the doomed leaf no longer counts. */
  ghost function In(t: Tree): seq<Node> {
    if t.Fork? then In(t.l) + [t.n] + In(t.r) else []
  }

  ghost function Before(c: Ctx): seq<Node> {
    match c case Top => [] case L(_, _, _, up) => Before(up) case R(n, _, side, up) => Before(up) + In(side) + [n]
  }

  ghost function After(c: Ctx): seq<Node> {
    match c case Top => [] case L(n, _, side, up) => [n] + In(side) + After(up) case R(_, _, _, up) => After(up)
  }

  ghost function Seq(c: Ctx, t: Tree): seq<Node> {
    Before(c) + In(t) + After(c)
  }

  lemma SeqUp(c: Ctx, t: Tree)
    requires !c.Top?
    ensures Seq(c, t) == Seq(c.up, Close(c, t))
  {
  }

  ghost function Step(b: bool): nat { if b then 1 else 0 }

  /** Black nodes on every path down, absent children counting one. */
  ghost function BlackHeight(t: Tree): nat {
    if t.Fork? then BlackHeight(t.l) + Step(t.b) else 1
  }

  ghost predicate BlackRoot(t: Tree) { t.Fork? ==> t.b }

  ghost predicate BlackTop(c: Ctx) { c.Top? || c.b }

  /** No red node has a red child, and all paths have the same number of black nodes. The root may be red. */
  ghost predicate Balanced(t: Tree) {
    t.Fork? ==>
      && Balanced(t.l) && Balanced(t.r) && BlackHeight(t.l) == BlackHeight(t.r)
      && (!t.b ==> BlackRoot(t.l) && BlackRoot(t.r))
  }

  /** The context is balanced around a hole that expects black height `h`; whether a red subtree
      may be put below a red node is left to the user of the context. */
  ghost predicate Fits(c: Ctx, h: nat) {
    !c.Top? ==>
      && Balanced(c.side) && BlackHeight(c.side) == h
      && (!c.b ==> BlackRoot(c.side) && BlackTop(c.up))
      && Fits(c.up, h + Step(c.b))
  }

  ghost predicate Proper(c: Ctx, t: Tree) {
    Balanced(t) && Fits(c, BlackHeight(t)) && (BlackRoot(t) || BlackTop(c))
  }

  lemma ProperUp(c: Ctx, t: Tree)
    requires !c.Top?
    ensures Proper(c, t) <==> Proper(c.up, Close(c, t))
  {
  }

  /** No doomed leaf anywhere. */
  ghost predicate Whole(t: Tree) {
    !t.Doomed? && (t.Fork? ==> Whole(t.l) && Whole(t.r))
  }

  ghost predicate WholeCtx(c: Ctx) {
    !c.Top? ==> Whole(c.side) && WholeCtx(c.up)
  }

  ghost function Plug(c: Ctx, t: Tree): Tree {
    if c.Top? then t else Plug(c.up, Close(c, t))
  }

  lemma PlugFacts(c: Ctx, t: Tree, h: Store)
    requires Focus(c, t, h)
    ensures TreeAt(Plug(c, t), null, h) && Nodes(Plug(c, t)) == CtxNodes(c) + Nodes(t)
    ensures In(Plug(c, t)) == Seq(c, t) && Root(Plug(c, t)) == RootOf(c, Root(t))
    ensures Proper(c, t) ==> Balanced(Plug(c, t))
    ensures Whole(t) && WholeCtx(c) ==> Whole(Plug(c, t))
    decreases c
  {
    if !c.Top? {
      FocusUp(c, t, h);
      SeqUp(c, t);
      ProperUp(c, t);
      PlugFacts(c.up, Close(c, t), h);
    }
  }
}
