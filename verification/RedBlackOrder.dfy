/** Where a node sits in the in-order sequence, and how to put the focus on it. */
module RedBlackOrder {

  import opened RedBlackShapes

  ghost function Index<T>(q: seq<T>, x: T): (i: nat)
    requires x in q
    ensures i < |q| && q[i] == x
  {
    if q[0] == x then 0 else 1 + Index(q[1..], x)
  }

  ghost function Elems<T>(q: seq<T>): set<T> {
    set x | x in q
  }

  ghost function Splice<T>(q: seq<T>, i: nat, x: T): seq<T>
    requires i <= |q|
  {
    q[..i] + [x] + q[i..]
  }

  ghost function Without<T>(q: seq<T>, x: T): seq<T>
    requires x in q
  {
    q[..Index(q, x)] + q[Index(q, x) + 1..]
  }

  lemma SpliceFacts<T>(q: seq<T>, i: nat, x: T)
    requires i <= |q|
    ensures |Splice(q, i, x)| == |q| + 1 && Elems(Splice(q, i, x)) == Elems(q) + {x}
  {
    assert q == q[..i] + q[i..];
  }

  lemma SplitAround<T>(q: seq<T>, u: seq<T>, x: T, w: seq<T>)
    requires q == u + [x] + w && x in q && Index(q, x) == |u|
    ensures Without(q, x) == u + w
  {
    assert q[..|u|] == u && q[|u| + 1..] == w;
  }

  lemma SwapOne<T>(q: seq<T>, u: seq<T>, x: T, y: T, w: seq<T>)
    requires q == u + [x] + w
    ensures q[|u| := y] == u + [y] + w
  {
  }

  lemma IndexAfter<T>(u: seq<T>, x: T, v: seq<T>)
    requires x !in u
    ensures Index(u + [x] + v, x) == |u|
  {
    var q := u + [x] + v;
    if u != [] {
      assert q[0] == u[0];
      assert q[1..] == u[1..] + [x] + v;
      IndexAfter(u[1..], x, v);
    }
  }

  lemma InNodes(t: Tree)
    ensures forall n :: n in In(t) ==> n in Nodes(t)
    ensures Whole(t) ==> Nodes(t) == Elems(In(t))
  {
    if t.Fork? { InNodes(t.l); InNodes(t.r); }
  }

  lemma BeforeAfterNodes(c: Ctx)
    ensures forall n :: n in Before(c) || n in After(c) ==> n in CtxNodes(c)
    ensures WholeCtx(c) ==> CtxNodes(c) == Elems(Before(c)) + Elems(After(c))
  {
    if !c.Top? { InNodes(c.side); BeforeAfterNodes(c.up); }
  }

  lemma SeqNodes(c: Ctx, t: Tree)
    requires Whole(t) && WholeCtx(c)
    ensures CtxNodes(c) + Nodes(t) == Elems(Seq(c, t))
  {
    BeforeAfterNodes(c);
    InNodes(t);
  }

  /** The focused node comes right after everything before its left subtree. */
  lemma FocusIndex(c: Ctx, t: Tree, h: Store)
    requires t.Fork? && Focus(c, t, h)
    ensures t.n in Seq(c, t) && Index(Seq(c, t), t.n) == |Before(c)| + |In(t.l)|
    ensures Seq(c, t) == (Before(c) + In(t.l)) + [t.n] + (In(t.r) + After(c))
  {
    BeforeAfterNodes(c);
    InNodes(t.l);
    assert Seq(c, t) == (Before(c) + In(t.l)) + [t.n] + (In(t.r) + After(c));
    IndexAfter(Before(c) + In(t.l), t.n, In(t.r) + After(c));
  }

  /** The same whole tree, seen from another place. */
  ghost predicate SameTree(c: Ctx, t: Tree, d: Ctx, u: Tree) {
    && Seq(d, u) == Seq(c, t) && RootOf(d, Root(u)) == RootOf(c, Root(t))
    && CtxNodes(d) + Nodes(u) == CtxNodes(c) + Nodes(t)
    && (Proper(c, t) <==> Proper(d, u))
    && (Whole(t) && WholeCtx(c) <==> Whole(u) && WholeCtx(d))
  }

  lemma UpIsSame(c: Ctx, t: Tree)
    requires !c.Top?
    ensures SameTree(c, t, c.up, Close(c, t))
  {
    SeqUp(c, t);
    ProperUp(c, t);
  }

  lemma EmptyChild(t: Tree, p: Node, leftSide: bool, h: Store) returns (c: Ctx)
    requires TreeAt(t, null, h) && Whole(t) && p in Nodes(t)
    requires p in h && (if leftSide then h[p].left else h[p].right) == null
    ensures Focus(c, Leaf, h) && SameTree(Top, t, c, Leaf) && !c.Top? && c.n == p && (c.L? <==> leftSide)
    ensures p in In(t) && |Before(c)| == Index(In(t), p) + if leftSide then 0 else 1
  {
    var d, u := Locate(Top, t, p, h);
    FocusIndex(d, u, h);
    assert Seq(Top, t) == In(t);
    c := if leftSide then L(u.n, u.b, u.r, d) else R(u.n, u.b, u.l, d);
    FocusUp(c, Leaf, h);
    UpIsSame(c, Leaf);
    assert Close(c, Leaf) == u;
  }

  lemma NewLeafFacts(t0: Tree, c: Ctx, node: Node)
    requires Balanced(t0) && Whole(t0) && SameTree(Top, t0, c, Leaf)
    ensures var t := Fork(Leaf, node, false, Leaf);
      && Balanced(t) && Fits(c, BlackHeight(t)) && Whole(t) && WholeCtx(c)
      && (c.Top? ==> Proper(c, t))
      && |Before(c)| <= |In(t0)| && Seq(c, t) == Splice(In(t0), |Before(c)|, node)
  {
    assert Seq(Top, t0) == In(t0);
    assert In(Fork(Leaf, node, false, Leaf)) == [node];
    assert Seq(c, Leaf) == Before(c) + After(c);
  }

  lemma Locate(c: Ctx, t: Tree, p: Node, h: Store) returns (d: Ctx, u: Tree)
    requires Focus(c, t, h) && Whole(t) && p in Nodes(t)
    ensures Focus(d, u, h) && u.Fork? && u.n == p && SameTree(c, t, d, u)
    decreases t
  {
    if t.n == p {
      d, u := c, t;
    } else {
      var e := if p in Nodes(t.l) then L(t.n, t.b, t.r, c) else R(t.n, t.b, t.l, c);
      var v := if p in Nodes(t.l) then t.l else t.r;
      FocusUp(e, v, h);
      UpIsSame(e, v);
      d, u := Locate(e, v, p, h);
    }
  }
}
