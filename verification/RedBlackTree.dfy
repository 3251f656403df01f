/** The tree: search, insertion, removal and replacement at a cursor, and the checks of the tree itself
    (AbstractRBTree in runtime/src/Base/RBTree.h). */
module RedBlackTree {

  import opened RedBlackShapes
  import opened RedBlackOrder
  import Words

  type Shape = RedBlackShapes.Tree

  /** A link field: the root, or the left or right link of a node. */
  datatype Place = AtRoot | LeftOf(p: Node) | RightOf(p: Node)

  /** A link field and the node that owns it; `NoCursor` is the cursor without a location. */
  datatype Cursor = NoCursor | Cursor(place: Place, parent: Node?)

  ghost function PlaceOf(c: Ctx): Place {
    match c case Top => AtRoot case L(n, _, _, _) => LeftOf(n) case R(n, _, _, _) => RightOf(n)
  }

  ghost predicate Sorted(q: seq<Node>) {
    forall i, j :: 0 <= i < j < |q| ==> q[i].key < q[j].key
  }

  ghost predicate Below(q: seq<Node>, key: int) { forall i :: 0 <= i < |q| ==> q[i].key < key }

  ghost predicate Above(q: seq<Node>, key: int) { forall i :: 0 <= i < |q| ==> q[i].key > key }

  ghost predicate Separates(q: seq<Node>, i: nat, key: int)
    requires i <= |q|
  {
    Below(q[..i], key) && Above(q[i..], key)
  }

  /** Inserting a key at the place that separates keeps the order strict. */
  lemma InsertKeepsSorted(q: seq<Node>, i: nat, node: Node)
    requires Sorted(q) && i <= |q| && Separates(q, i, node.key)
    ensures Sorted(Splice(q, i, node))
  {
    var r := Splice(q, i, node);
    assert forall j :: 0 <= j < |r| ==> r[j] == if j < i then q[..i][j] else if j == i then node else q[i..][j - i - 1];
    assert forall j :: i < j < |r| ==> r[j] == q[j - 1];
  }

  lemma RemoveKeepsSorted(q: seq<Node>, node: Node)
    requires Sorted(q) && node in q
    ensures Sorted(Without(q, node)) && node !in Without(q, node)
  {
    var i := Index(q, node);
    var r := Without(q, node);
    assert forall j :: 0 <= j < |r| ==> r[j] == if j < i then q[j] else q[j + 1];
  }

  /** The place of an absent subtree in the order. */
  lemma HolePosition(c: Ctx, q: seq<Node>, h: Store)
    requires !c.Top? && Focus(c, Leaf, h) && Seq(c, Leaf) == q
    ensures c.n in q && |Before(c)| == Index(q, c.n) + if c.L? then 0 else 1
  {
    FocusUp(c, Leaf, h);
    SeqUp(c, Leaf);
    FocusIndex(c.up, Close(c, Leaf), h);
    assert c.L? ==> Before(c) == Before(c.up) && In(Close(c, Leaf).l) == [];
  }

  lemma SearchEnd(c: Ctx, shape: Shape, key: int, h: Store)
    requires Searching(c, Leaf, shape, key, h)
    ensures |Before(c)| <= |In(shape)| && Separates(In(shape), |Before(c)|, key)
  {
    assert Seq(c, Leaf) == Before(c) + After(c);
    assert In(shape)[..|Before(c)|] == Before(c) && In(shape)[|Before(c)|..] == After(c);
  }

  /** The search has narrowed to `t`: everything before has a smaller key, everything after a larger one. */
  ghost predicate Searching(c: Ctx, t: Shape, shape: Shape, key: int, h: Store) {
    && Focus(c, t, h) && Whole(t) && Seq(c, t) == In(shape) && CtxNodes(c) + Nodes(t) == Nodes(shape)
    && Below(Before(c), key) && Above(After(c), key)
  }

  ghost function Down(c: Ctx, t: Shape, key: int): (Ctx, Shape)
    requires t.Fork?
  {
    if key < t.n.key then (L(t.n, t.b, t.r, c), t.l) else (R(t.n, t.b, t.l, c), t.r)
  }

  lemma SearchDown(c: Ctx, t: Shape, shape: Shape, key: int, h: Store)
    requires Searching(c, t, shape, key, h) && t.Fork? && t.n.key != key && Sorted(In(shape))
    ensures Searching(Down(c, t, key).0, Down(c, t, key).1, shape, key, h)
    ensures t.n in h && h[t.n].left == Root(t.l) && h[t.n].right == Root(t.r)
  {
    var (d, u) := Down(c, t, key);
    assert Seq(d, u) == In(shape) && Below(Before(d), key) && Above(After(d), key) by {
      FocusIndex(c, t, h);
      SearchDownOrder(c, t, key, In(shape));
    }
    assert Focus(d, u, h) by { FocusUp(d, u, h); }
    assert CtxNodes(d) + Nodes(u) == CtxNodes(c) + Nodes(t);
  }

  lemma SearchDownOrder(c: Ctx, t: Shape, key: int, q: seq<Node>)
    requires t.Fork? && t.n.key != key && Sorted(q) && Seq(c, t) == q && Below(Before(c), key) && Above(After(c), key)
    requires q == (Before(c) + In(t.l)) + [t.n] + (In(t.r) + After(c))
    ensures var (d, u) := Down(c, t, key); Seq(d, u) == q && Below(Before(d), key) && Above(After(d), key)
  {
    SearchStep(c, t, key, q);
    SeqUp(Down(c, t, key).0, Down(c, t, key).1);
  }

  lemma SearchStep(c: Ctx, t: Shape, key: int, q: seq<Node>)
    requires t.Fork? && t.n.key != key && Sorted(q) && Seq(c, t) == q && Below(Before(c), key) && Above(After(c), key)
    requires q == (Before(c) + In(t.l)) + [t.n] + (In(t.r) + After(c))
    ensures key < t.n.key ==> Above([t.n] + In(t.r) + After(c), key)
    ensures key > t.n.key ==> Below(Before(c) + In(t.l) + [t.n], key)
  {
    var u, w := Before(c) + In(t.l), In(t.r) + After(c);
    assert q[|u|] == t.n;
    if key < t.n.key {
      var v := [t.n] + In(t.r) + After(c);
      assert forall i :: 0 <= i < |v| ==> v[i] == q[|u| + i];
    } else {
      var v := Before(c) + In(t.l) + [t.n];
      assert forall i :: 0 <= i < |v| ==> v[i] == q[i];
    }
  }

  predicate IsBlack(n: Node?)
    reads n
  {
    n == null || n.black
  }

  class Tree {
    var numNodes: nat
    var root: Node?
    ghost var shape: Shape
    ghost var nodes: set<Node>

    /** Search by key. A found node has the key; an empty place separates the smaller from the larger keys. */
    method FindCursor(key: int) returns (cur: Cursor)
      requires Valid() && Sorted(Order())
      ensures CursorOk(cur)
      ensures Target(cur.place) != null ==> Target(cur.place) in nodes && Target(cur.place).key == key
      ensures Target(cur.place) == null ==>
        && (!cur.place.AtRoot? ==> cur.place.p in Order()) && Position(cur.place) <= |Order()|
        && Separates(Order(), Position(cur.place), key)
    {
      ghost var c, t;
      cur, c, t := Search(key);
      if Target(cur.place) == null {
        if !c.Top? { HolePosition(c, In(shape), Fields(nodes)); }
        SearchEnd(c, shape, key, Fields(nodes));
      }
    }

    method Search(key: int) returns (cur: Cursor, ghost c: Ctx, ghost t: Shape)
      requires Valid() && Sorted(Order())
      ensures CursorOk(cur) && cur == Cursor(PlaceOf(c), Parent(c)) && Target(cur.place) == Root(t)
      ensures Searching(c, t, shape, key, Fields(nodes))
      ensures Target(cur.place) != null ==> Target(cur.place).key == key
    {
      var parent: Node? := null;
      var place := AtRoot;
      ghost var h := Fields(nodes);
      c, t := Top, shape;
      assert Seq(Top, shape) == In(shape);
      while Target(place) != null && Target(place).key != key
        invariant Searching(c, t, shape, key, h)
        invariant parent == Parent(c) && place == PlaceOf(c) && Target(place) == Root(t)
        decreases t
      {
        var curr: Node := Target(place);
        SearchDown(c, t, shape, key, h);
        parent := curr;
        place := if key < curr.key then LeftOf(curr) else RightOf(curr);
        c, t := Down(c, t, key).0, Down(c, t, key).1;
      }
      cur := Cursor(place, parent);
    }

    /** The cursor of a node of the tree. */
    method CursorOf(node: Node?) returns (cur: Cursor)
      requires Valid() && (node != null ==> node in nodes)
      ensures node == null ==> cur == NoCursor
      ensures node != null ==> CursorOk(cur) && Target(cur.place) == node
    {
      if node == null {
        return NoCursor;
      }
      ghost var c, t := NodeFocus(node);
      WhichSide(c, t, Fields(nodes));
      if node.parent == null {
        return Cursor(AtRoot, null);
      }
      var parent := node.parent;
      cur := Cursor(if node.IsLeftChild() then LeftOf(parent) else RightOf(parent), parent);
    }

    method Remove(node: Node)
      requires Valid() && node in nodes
      modifies this, nodes
      ensures Valid() && node in old(Order()) && nodes == old(nodes) - {node} && Order() == Without(old(Order()), node)
    {
      var cur := CursorOf(node);
      RemoveAtCursor(cur);
    }

    /** Put another node in the place of the one the cursor points at. The caller answers for the
        keys: with the new node in that position the order is still strict. */
    method ReplaceAtCursor(newNode: Node, cur: Cursor)
      requires Valid() && CursorOk(cur) && Target(cur.place) != null
      requires newNode != Target(cur.place) ==> newNode !in nodes
      requires Target(cur.place) in Order() && Sorted(Order()[Index<Node>(Order(), Target(cur.place)) := newNode])
      modifies this, nodes, newNode
      ensures Valid() && nodes == old(nodes) - {old(Target(cur.place))} + {newNode}
      ensures Order() == old(Order()[Index<Node>(Order(), Target(cur.place)) := newNode])
    {
      var oldNode: Node := Target(cur.place);
      TargetInTree(cur);
      if oldNode == newNode {
        return;
      }
      ghost var c, t := NodeFocus(oldNode);
      ReplacedOrder(c, t, newNode, Fields(nodes));
      PlaceMatches(cur, c, t);
      SortedKeysFit(c, t, newNode);
      ghost var u := Fork(t.l, newNode, t.b, t.r);
      ReplaceLinks(oldNode, newNode, cur, c, t);
      ReplacedFacts(c, t, newNode);
      Install(c, u);
    }

    lemma PlaceMatches(cur: Cursor, c: Ctx, t: Shape)
      requires CursorOk(cur) && t.Fork? && Focus(c, t, Fields(nodes)) && Target(cur.place) == t.n
      requires root == RootOf(c, t.n) && nodes == CtxNodes(c) + Nodes(t) && Valid()
      ensures PlaceOf(c) == cur.place
    {
      WhichSide(c, t, Fields(nodes));
      RootIsFocus(c, t, Fields(nodes));
      if !cur.place.AtRoot? {
        var d, v := NodeFocus(cur.place.p);
        assert TreeAt(v.l, v.n, Fields(nodes)) && TreeAt(v.r, v.n, Fields(nodes));
      }
    }

    /** Write a link field. */
    method Store(place: Place, node: Node)
      modifies this`root, if place.AtRoot? then {} else {place.p}
      ensures root == if place.AtRoot? then node else old(root)
      ensures place.LeftOf? ==> Is(place.p, old(place.p.parent), old(place.p.black), node, old(place.p.right))
      ensures place.RightOf? ==> Is(place.p, old(place.p.parent), old(place.p.black), old(place.p.left), node)
    {
      match place {
        case AtRoot => root := node;
        case LeftOf(p) => p.left := node;
        case RightOf(p) => p.right := node;
      }
    }

    method WriteReplacement(oldNode: Node, newNode: Node, cur: Cursor, ghost c: Ctx, ghost t: Shape)
      requires t.Fork? && t.n == oldNode && Focus(c, t, Fields(nodes)) && nodes == CtxNodes(c) + Nodes(t) && Whole(t)
      requires cur.Cursor? && PlaceOf(c) == cur.place && newNode !in nodes && KeysFit(c, t, newNode)
      modifies this`root, nodes, newNode
      ensures Replaced(c, t, newNode, old(Fields(nodes)), Fields(nodes + {newNode}))
      ensures root == if c.Top? then newNode else old(root)
    {
      ReplaceIsSafe(c, t, Fields(nodes));
      Store(cur.place, newNode);
      Supplant(oldNode, newNode);
    }

    method ReplaceLinks(oldNode: Node, newNode: Node, cur: Cursor, ghost c: Ctx, ghost t: Shape)
      requires t.Fork? && t.n == oldNode && Focus(c, t, Fields(nodes)) && nodes == CtxNodes(c) + Nodes(t)
      requires cur.Cursor? && PlaceOf(c) == cur.place && newNode !in nodes && root == RootOf(c, oldNode) && Whole(t)
      requires KeysFit(c, t, newNode)
      modifies this`root, this`nodes, nodes, newNode
      ensures nodes == old(nodes) - {oldNode} + {newNode} && root == RootOf(c, newNode)
      ensures Focus(c, Fork(t.l, newNode, t.b, t.r), Fields(nodes))
    {
      ghost var h := Fields(nodes);
      ReplaceIsSafe(c, t, h);
      if !c.Top? { RootOfContext(c, oldNode, newNode); }
      WriteReplacement(oldNode, newNode, cur, c, t);
      ghost var k := Fields(nodes + {newNode});
      ReplacedFocus(c, t, newNode, h, k);
      nodes := nodes - {oldNode} + {newNode};
      FocusFrame(c, Fork(t.l, newNode, t.b, t.r), k, Fields(nodes));
    }

    /** The tree's own check: it runs through without an assertion failing and counts every node. */
    method VerifySelf()
      requires Valid() && Sorted(Order())
    {
      var count, blackHeight := VerifyNode(root, shape, null, nodes);
      assert count == numNodes;
    }

    /** Remove the node the cursor points at. A node with two children first swaps places, links and
        colour with its in-order successor, which has at most one child. */
    method RemoveAtCursor(cur: Cursor)
      requires Valid() && CursorOk(cur) && Target(cur.place) != null
      modifies this, nodes
      ensures Valid() && old(Target(cur.place)) in old(Order()) && nodes == old(nodes) - {old(Target(cur.place))}
      ensures Order() == Without<Node>(old(Order()), old(Target(cur.place)))
    {
      var node: Node := Target(cur.place);
      TargetInTree(cur);
      ghost var c, t := NodeFocus(node);
      CountDown(nodes);
      if node.left != null && node.right != null {
        c, t := SwapWithSuccessor(node, c, t);
      }
      RemoveFromTree(node, c, t);
    }

    method CountDown(ghost s: set<Node>)
      requires numNodes > 0
      modifies this`numNodes
      ensures numNodes == old(numNodes) - 1 && Fields(s) == old(Fields(s))
    {
      numNodes := numNodes - 1;
    }

    /** A node of the tree, in focus. */
    lemma NodeFocus(node: Node) returns (c: Ctx, t: Shape)
      requires Valid() && node in nodes
      ensures Focus(c, t, Fields(nodes)) && t.Fork? && t.n == node && node.left == Root(t.l) && node.right == Root(t.r)
      ensures Proper(c, t) && Whole(t) && WholeCtx(c) && nodes == CtxNodes(c) + Nodes(t) && root == RootOf(c, node)
      ensures node in Order() && Rest(c, t) == Without(Order(), node) && numNodes == |Seq(c, t)|
      ensures Seq(c, t) == Order() && numNodes > 0
    {
      c, t := Locate(Top, shape, node, Fields(nodes));
      assert Proper(Top, shape);
      RemovalOrder(shape, c, t, Fields(nodes));
    }

    lemma TargetInTree(cur: Cursor)
      requires Valid() && CursorOk(cur) && Target(cur.place) != null
      ensures Target(cur.place) in nodes
    {
      if !cur.place.AtRoot? {
        var d, u := Locate(Top, shape, cur.place.p, Fields(nodes));
        assert TreeAt(u.l, u.n, Fields(nodes)) && TreeAt(u.r, u.n, Fields(nodes));
      }
    }

    /** Exchange a node with two children and its in-order successor. */
    method SwapWithSuccessor(node: Node, ghost c: Ctx, ghost t: Shape) returns (ghost c': Ctx, ghost t': Shape)
      requires Focus(c, t, Fields(nodes)) && t.Fork? && t.n == node && t.l.Fork? && t.r.Fork?
      requires Proper(c, t) && Whole(t) && WholeCtx(c) && nodes == CtxNodes(c) + Nodes(t) && root == RootOf(c, node)
      modifies this`root, nodes
      ensures Focus(c', t', Fields(nodes)) && t'.Fork? && t'.n == node && t'.l.Leaf?
      ensures Proper(c', t') && Whole(t') && WholeCtx(c') && nodes == CtxNodes(c') + Nodes(t')
      ensures root == RootOf(c', node) && Rest(c', t') == Rest(c, t) && |Seq(c', t')| == |Seq(c, t)|
    {
      var curr, e, v := Successor(node, c, t, nodes);
      assert root == node <==> c.Top? by { RootIsFocus(c, t, Fields(nodes)); }
      if root == node {
        SetRoot(curr, nodes);
      }
      ghost var base := R(node, t.b, t.l, c);
      c' := Rebase(e, base, R(curr, t.b, t.l, c));
      t' := Fork(Leaf, node, v.b, v.r);
      ExchangeFacts(c, t, e, v);
      ghost var h := Fields(nodes);
      ExchangeLinks(node, curr, base, e, v, nodes);
      ExchangedFocus(base, e, v, h, Fields(nodes));
      if !c.Top? { RootOfContext(c, node, curr); }
      RestNodes(c, t);
      RestNodes(c', t');
    }

    /** Unlink a node with at most one child from its place, keeping the tree balanced. */
    method RemoveFromTree(node: Node, ghost c: Ctx, ghost t: Shape)
      requires Focus(c, t, Fields(nodes)) && t.Fork? && t.n == node && (t.l.Leaf? || t.r.Leaf?)
      requires Proper(c, t) && Whole(t) && WholeCtx(c) && nodes == CtxNodes(c) + Nodes(t)
      requires root == RootOf(c, node) && numNodes + 1 == |Seq(c, t)|
      modifies this, nodes
      ensures Valid() && nodes == old(nodes) - {node} && Order() == Rest(c, t)
    {
      OnlyChild(c, t, Fields(nodes));
      if node.left != null {
        assert node.right == null && node.black && !node.left.black;
        ReplaceByChild(node, node.left, t.l, c, t);
      } else if node.right != null {
        assert node.black && !node.right.black;
        ReplaceByChild(node, node.right, t.r, c, t);
      } else {
        RemoveLeaf(node, c, t);
      }
    }

    method RemoveLeaf(node: Node, ghost c: Ctx, ghost t: Shape)
      requires Focus(c, t, Fields(nodes)) && t.Fork? && t.n == node && t.l.Leaf? && t.r.Leaf?
      requires Proper(c, t) && Whole(t) && WholeCtx(c) && nodes == CtxNodes(c) + Nodes(t)
      requires root == RootOf(c, node) && numNodes + 1 == |Seq(c, t)|
      modifies this, nodes
      ensures Valid() && nodes == old(nodes) - {node} && Order() == Before(c) + After(c)
    {
      LeafFacts(c, t, Fields(nodes));
      ghost var d := UnlinkLeaf(node, c, t);
      Install(d, Leaf);
    }

    method UnlinkLeaf(node: Node, ghost c: Ctx, ghost t: Shape) returns (ghost d: Ctx)
      requires Focus(c, t, Fields(nodes)) && t.Fork? && t.n == node && t.l.Leaf? && t.r.Leaf?
      requires Proper(c, t) && WholeCtx(c) && nodes == CtxNodes(c) + {node}
      requires root == RootOf(c, node)
      modifies this`root, this`nodes, nodes
      ensures Focus(d, Leaf, Fields(nodes)) && Proper(d, Leaf) && WholeCtx(d) && root == RootOf(d, null)
      ensures nodes == CtxNodes(d) == old(nodes) - {node} && Seq(d, Leaf) == Before(c) + After(c)
    {
      LeafFacts(c, t, Fields(nodes));
      d := c;
      assert node == root <==> c.Top? by { RootIsFocus(c, t, Fields(nodes)); }
      if node == root {
        Detach(node, null, c);
      } else {
        var parent := node.parent;
        if node.black {
          // Removed node is black, creating a black imbalance
          ghost var c1, t1 := RemoveBlackLeaf(node, c, nodes);
          d := LocateDoomed(c1, t1, node, parent, Fields(nodes));
          SameNodes(c, d, node, parent);
        }
        assert parent == d.n;
        Detach(node, null, d);
      }
    }

    method ReplaceByChild(node: Node, child: Node, ghost u: Shape, ghost c: Ctx, ghost t: Shape)
      requires Focus(c, t, Fields(nodes)) && t.Fork? && t.n == node && t.b && u.Fork? && !u.b && u.n == child
      requires (t.l == u && t.r.Leaf?) || (t.r == u && t.l.Leaf?)
      requires Proper(c, t) && Whole(t) && WholeCtx(c) && nodes == CtxNodes(c) + Nodes(t)
      requires root == RootOf(c, node) && numNodes + 1 == |Seq(c, t)|
      modifies this, nodes
      ensures Valid() && nodes == old(nodes) - {node} && Order() == Seq(c, u)
    {
      LiftChild(node, child, u, c, t);
      LiftedFacts(c, t, u);
      Install(c, Painted(u, true));
    }

    method LiftChild(node: Node, child: Node, ghost u: Shape, ghost c: Ctx, ghost t: Shape)
      requires Focus(c, t, Fields(nodes)) && t.Fork? && t.n == node && u.Fork? && u.n == child && (t.l == u || t.r == u)
      requires nodes == CtxNodes(c) + Nodes(t) && root == RootOf(c, node)
      modifies this`root, this`nodes, nodes
      ensures nodes == old(nodes) - {node} && root == RootOf(c, child)
      ensures Focus(c, Painted(u, true), Fields(nodes))
    {
      ghost var h := Fields(nodes);
      assert TreeAt(u, node, h);
      Reseat(child, node.parent, nodes, u, node);
      CtxFrame(c, node, h, Fields(nodes));
      h := Fields(nodes);
      Detach(node, child, c);
      TreeFrame(Painted(u, true), Parent(c), h, Fields(nodes));
    }

    /** Redirect the link that points at `node` and forget the node. */
    method Detach(node: Node, child: Node?, ghost c: Ctx)
      requires CtxAt(c, node, Fields(nodes)) && node in nodes && node !in CtxNodes(c) && node.parent == Parent(c)
      requires root == RootOf(c, node)
      modifies this`root, this`nodes, nodes
      ensures nodes == old(nodes) - {node} && root == RootOf(c, child)
      ensures forall n :: n in old(nodes) && n != Parent(c) ==>
        n.parent == old(n.parent) && n.black == old(n.black) && n.left == old(n.left) && n.right == old(n.right)
      ensures CtxAt(c, child, Fields(nodes))
    {
      ghost var h := Fields(nodes);
      var parent := node.parent;
      if parent == null {
        assert node == root;
        root := child;
      } else {
        assert c.R? ==> parent.left != node;
        RootOfContext(c, node, child);
        parent.ReplaceChild(node, child);
      }
      nodes := nodes - {node};
      MovedHole(c, node, child, h, Fields(nodes));
    }

    /** Remove a black leaf: every case of sibling and nephew colours, moving up until the missing
        black level is made up for. The leaf stays linked in, below the same parent. */
    method RemoveBlackLeaf(leaf: Node, ghost c0: Ctx, ghost s: set<Node>) returns (ghost c: Ctx, ghost t: Shape)
      requires !c0.Top? && Focus(c0, Doomed(leaf, c0.n), Fields(s)) && Fits(c0, 2) && WholeCtx(c0)
      requires root == RootOf(c0, leaf)
      modifies this`root, s
      ensures Focus(c, t, Fields(s)) && Proper(c, t) && Lone(t, leaf, c0.n) && WholeCtx(c)
      ensures Seq(c, t) == Seq(c0, Doomed(leaf, c0.n)) && root == RootOf(c, Root(t))
    {
      c, t := c0, Doomed(leaf, c0.n);
      var node := leaf;
      var parent := node.parent;
      while parent != null
        invariant Focus(c, t, Fields(s)) && Root(t) == node && Short(c, t) && Lone(t, leaf, c0.n)
        invariant parent == Parent(c) && root == RootOf(c, node)
        invariant Seq(c, t) == Seq(c0, Doomed(leaf, c0.n))
        decreases c
      {
        var done;
        done, c, t := RebalanceStep(node, parent, leaf, c0.n, c, t, s);
        if done {
          return;
        }
        node := parent;
        parent := node.parent;
      }
    }

    /** One round of the loop at `node`, which lacks a black level; `done` when nothing is lacking any more. */
    method RebalanceStep(node: Node, parent: Node, ghost x: Node, ghost p: Node, ghost c: Ctx, ghost t: Shape,
                         ghost s: set<Node>)
      returns (done: bool, ghost c': Ctx, ghost t': Shape)
      requires Focus(c, t, Fields(s)) && Root(t) == node && Short(c, t) && Lone(t, x, p) && !c.Top? && c.n == parent
      requires root == RootOf(c, node)
      modifies this`root, s
      ensures Focus(c', t', Fields(s)) && Lone(t', x, p) && WholeCtx(c') && Seq(c', t') == Seq(c, t)
      ensures root == RootOf(c', Root(t'))
      ensures done ==> Proper(c', t')
      ensures !done ==> Short(c', t') && c' == c.up && Root(t') == parent
    {
      var sibling, d := EnsureBlackSibling(node, parent, c, t, s);
      done, c', t' := SpreadBlack(node, parent, sibling, x, p, d, t, s);
    }

    /** With a black sibling: a red nephew makes up for the missing level, otherwise the sibling turns red. */
    method SpreadBlack(node: Node, parent: Node, sibling: Node, ghost x: Node, ghost p: Node, ghost d: Ctx,
                       ghost t: Shape,
                       ghost s: set<Node>)
      returns (done: bool, ghost c': Ctx, ghost t': Shape)
      requires Focus(d, t, Fields(s)) && Root(t) == node && Short(d, t) && Lone(t, x, p) && !d.Top? && d.n == parent
      requires d.side.Fork? && d.side.b && d.side.n == sibling && root == RootOf(d, node)
      modifies this`root, s
      ensures Focus(c', t', Fields(s)) && Lone(t', x, p) && WholeCtx(c') && Seq(c', t') == Seq(d, t)
      ensures root == RootOf(c', Root(t'))
      ensures done ==> Proper(c', t')
      ensures !done ==> Short(c', t') && d.b && c' == d.up && Root(t') == parent
    {
      var closeNephew, distantNephew, redNephew := Nephews(node, sibling, d, t, s);
      c' := d.up;
      if redNephew {
        RestoreBlack(node, parent, sibling, closeNephew, distantNephew, d, t, s);
        RestoredFacts(d, t, x, p);
        t' := Restored(d, t);
        done := true;
      } else {
        LevelledFacts(d, t, x, p);
        assert parent.black == d.b;
        done := !parent.black; // parent red, sibling and nephews black
        Level(parent, sibling, d, t, s);
        t' := Levelled(d, t);
      }
    }

    /** A red sibling is rotated above the parent first; its inner child is the new, black sibling. */
    method EnsureBlackSibling(node: Node, parent: Node, ghost c: Ctx, ghost t: Shape, ghost s: set<Node>)
      returns (sibling: Node, ghost d: Ctx)
      requires Focus(c, t, Fields(s)) && Short(c, t) && Root(t) == node && !c.Top? && c.n == parent
      requires root == RootOf(c, node)
      modifies this`root, s
      ensures Focus(d, t, Fields(s)) && Short(d, t) && !d.Top? && d.n == parent && Seq(d, t) == Seq(c, t)
      ensures d.side.Fork? && d.side.b && d.side.n == sibling && root == RootOf(d, node) && (d.b ==> d == c)
    {
      SiblingExists(c, t);
      WhichChild(c, t, Fields(s));
      assert TreeAt(c.side, c.n, Fields(s));
      sibling := if node.IsLeftChild() then parent.right else parent.left;
      d := c;
      if !IsBlack(sibling) {
        assert TreeAt(c.side.l, sibling, Fields(s)) && TreeAt(c.side.r, sibling, Fields(s));
        assert IsBlack(parent) && IsBlack(sibling.left) && IsBlack(sibling.right);
        LowerParent(node, parent, sibling, c, t, s);
        d := Lowered(c);
        LoweredFacts(c, t);
        sibling := if node.IsLeftChild() then parent.right else parent.left;
      }
    }

    /** A nephew is red: at most two rotations make up for the missing black level. */
    method RestoreBlack(node: Node, parent: Node, sibling0: Node, closeNephew: Node?, distantNephew0: Node?,
                        ghost c: Ctx, ghost t: Shape, ghost s: set<Node>)
      requires Focus(c, t, Fields(s)) && Short(c, t) && Root(t) == node && !c.Top? && c.n == parent
      requires c.side.Fork? && c.side.b && c.side.n == sibling0 && RedNephew(c)
      requires closeNephew == Root(CloseNephew(c)) && distantNephew0 == Root(DistantNephew(c))
      requires root == RootOf(c, node)
      modifies this`root, s
      ensures DistantNephew(Outward(c)).Fork?
      ensures Focus(c.up, Restored(c, t), Fields(s)) && root == RootOf(c.up, Root(Restored(c, t)))
    {
      OutwardFacts(c, t);
      assert root == parent <==> c.up.Top? by {
        FocusUp(c, t, Fields(s));
        RootIsFocus(c.up, Close(c, t), Fields(s));
      }
      var sibling, distantNephew := RotateNephewOut(node, sibling0, closeNephew, distantNephew0, c, t, s);
      RaiseSibling(node, parent, sibling, distantNephew, Outward(c), t, s);
      if !c.up.Top? { RootOfContext(c.up, parent, sibling); }
      if root == parent {
        SetRoot(sibling, s);
      }
    }

    /** Swap the colours of parent and red sibling and rotate the sibling up. */
    method LowerParent(node: Node, parent: Node, sibling: Node, ghost c: Ctx, ghost t: Shape, ghost s: set<Node>)
      requires Focus(c, t, Fields(s)) && Short(c, t) && Root(t) == node && !c.Top? && c.n == parent
      requires c.side.Fork? && c.side.n == sibling && !c.side.b
      requires root == RootOf(c, node)
      modifies this`root, s
      ensures Focus(Lowered(c), t, Fields(s)) && root == RootOf(Lowered(c), node)
    {
      assert root == parent <==> c.up.Top? by {
        FocusUp(c, t, Fields(s));
        RootIsFocus(c.up, Close(c, t), Fields(s));
      }
      LowerLinks(node, parent, sibling, c, t, s);
      assert RootOf(Lowered(c), node) == RootOf(Lowered(c).up, parent) == RootOf(c.up, sibling);
      if !c.up.Top? { RootOfContext(c.up, parent, sibling); }
      if root == parent {
        SetRoot(parent.parent, s);
      }
    }

    method SetRoot(node: Node?, ghost s: set<Node>)
      modifies this`root
      ensures root == node && Fields(s) == old(Fields(s))
    {
      root := node;
    }

    ghost predicate Valid()
      reads this, nodes
    {
      && nodes == Nodes(shape) && TreeAt(shape, null, Fields(nodes)) && Whole(shape)
      && root == Root(shape) && Balanced(shape) && numNodes == |In(shape)|
    }

    /** After any run of insertions and removals the height is logarithmic in the node count. */
    lemma HeightBound()
      requires Valid()
      ensures Words.Pow2(Height(shape) / 2) <= numNodes + 1
    {
      HeightIsLogarithmic(shape);
    }

    /** The nodes of the tree in order. */
    ghost function Order(): seq<Node>
      reads this
    {
      In(shape)
    }

    constructor ()
      ensures Valid() && fresh(nodes) && Order() == []
    {
      numNodes, root, shape, nodes := 0, null, Leaf, {};
    }

    ghost predicate CursorOk(cur: Cursor)
      reads this
    {
      cur.Cursor? && (if cur.place.AtRoot? then cur.parent == null
        else cur.place.p in nodes && cur.parent == cur.place.p)
    }

    /** What the insert location of a cursor points at. */
    function Target(place: Place): Node?
      reads this, if place.AtRoot? then {} else {place.p}
    {
      match place case AtRoot => root case LeftOf(p) => p.left case RightOf(p) => p.right
    }

    /** How many nodes come before the empty place. */
    ghost function Position(place: Place): nat
      requires !place.AtRoot? ==> place.p in Order()
      reads this
    {
      match place case AtRoot => 0 case LeftOf(p) => Index(Order(), p) case RightOf(p) => Index(Order(), p) + 1
    }

    /** An empty place of a valid tree, as a focus on an absent subtree. */
    lemma EmptyPlace(cur: Cursor) returns (c: Ctx)
      requires Valid() && CursorOk(cur) && Target(cur.place) == null
      ensures Focus(c, Leaf, Fields(nodes)) && SameTree(Top, shape, c, Leaf) && Parent(c) == cur.parent
      ensures !cur.place.AtRoot? ==> (c.L? <==> cur.place.LeftOf?) && cur.place.p in Order()
      ensures Position(cur.place) == |Before(c)|
    {
      if cur.place.AtRoot? {
        c := Top;
      } else {
        c := EmptyChild(shape, cur.place.p, cur.place.LeftOf?, Fields(nodes));
      }
    }

    method InsertAtCursor(node: Node, cur: Cursor)
      requires Valid() && CursorOk(cur) && Target(cur.place) == null && node !in nodes
      modifies this, nodes, node
      ensures Valid() && nodes == old(nodes) + {node}
      ensures !cur.place.AtRoot? ==> cur.place.p in old(Order())
      ensures Order() == Splice(old(Order()), old(Position(cur.place)), node)
    {
      ghost var c := Attach(node, cur);
      ghost var t := Fork(Leaf, node, false, Leaf);
      if cur.parent != null {
        c, t := FixInsertViolations(node, c, t, nodes);
      }
      SeqNodes(c, t);
      Install(c, t);
    }

    /** Put the node, red and childless, into the empty place. */
    method Attach(node: Node, cur: Cursor) returns (ghost c: Ctx)
      requires Valid() && CursorOk(cur) && Target(cur.place) == null && node !in nodes
      modifies this`root, this`numNodes, this`nodes, nodes, node
      ensures var t := Fork(Leaf, node, false, Leaf);
        && Focus(c, t, Fields(nodes)) && Whole(t) && WholeCtx(c) && Balanced(t) && Fits(c, BlackHeight(t))
        && root == RootOf(c, node) && Parent(c) == cur.parent && numNodes == |Seq(c, t)|
        && nodes == old(nodes) + {node} == Elems(Seq(c, t))
        && (!cur.place.AtRoot? ==> cur.place.p in old(Order()))
        && Seq(c, t) == Splice(old(Order()), old(Position(cur.place)), node)
    {
      c := EmptyPlace(cur);
      NewLeafFacts(shape, c, node);
      SpliceFacts(Order(), |Before(c)|, node);
      InNodes(shape);
      LinkNew(node, cur, c);
    }

    /** Close the focus: the whole tree becomes the recorded shape. */
    ghost method Install(c: Ctx, t: Shape)
      requires Focus(c, t, Fields(nodes)) && Proper(c, t) && Whole(t) && WholeCtx(c)
      requires root == RootOf(c, Root(t)) && numNodes == |Seq(c, t)|
      requires nodes == CtxNodes(c) + Nodes(t)
      modifies this`shape
      ensures Valid() && Order() == Seq(c, t)
    {
      PlugFacts(c, t, Fields(nodes));
      shape := Plug(c, t);
    }

    /** Store the node into the empty place and reset its own links and colour. */
    method LinkNew(node: Node, cur: Cursor, ghost c: Ctx)
      requires CursorOk(cur) && Focus(c, Leaf, Fields(nodes)) && CtxNodes(c) == nodes && node !in nodes
      requires Parent(c) == cur.parent && (!cur.place.AtRoot? ==> (c.L? <==> cur.place.LeftOf?))
      requires root == RootOf(c, null)
      modifies this`root, this`numNodes, this`nodes, nodes, node
      ensures numNodes == old(numNodes) + 1 && nodes == old(nodes) + {node}
      ensures Focus(c, Fork(Leaf, node, false, Leaf), Fields(nodes)) && root == RootOf(c, node)
    {
      ghost var h := Fields(nodes);
      if !c.Top? { RootOfContext(c, null, node); }
      numNodes := numNodes + 1;
      Store(cur.place, node);
      node.parent := cur.parent;
      node.black := false;
      node.left := null;
      node.right := null;
      nodes := nodes + {node};
      MovedHole(c, null, node, h, Fields(nodes));
    }

    /** The focus `t` is a freshly reddened subtree, balanced in itself and of the black height its
        place expects; afterwards the whole tree is balanced, with the same nodes in the same order. */
    method FixInsertViolations(node0: Node, ghost c0: Ctx, ghost t0: Shape, ghost s: set<Node>)
      returns (ghost c: Ctx, ghost t: Shape)
      requires Focus(c0, t0, Fields(s)) && t0.Fork? && t0.n == node0 && Whole(t0) && WholeCtx(c0)
      requires Balanced(t0) && Fits(c0, BlackHeight(t0))
      requires root == RootOf(c0, node0)
      modifies this`root, s
      ensures Focus(c, t, Fields(s)) && Whole(t) && WholeCtx(c)
      ensures Proper(c, t) && Seq(c, t) == Seq(c0, t0) && root == RootOf(c, Root(t))
    {
      c, t := c0, t0;
      if node0.black {
        return;
      }
      var node := node0;
      var parent := node.parent;
      while parent != null && !parent.black
        invariant Focus(c, t, Fields(s)) && Reddened(c, t) && t.n == node && Seq(c, t) == Seq(c0, t0)
        invariant parent == Parent(c) && root == RootOf(c, node)
        decreases c
      {
        FocusUp(c, t, Fields(s));
        var grandparent := parent.parent;
        if grandparent == null {
          assert parent == root;
          parent.SetBlack(c.up, Close(c, t), s);
          BlackenedFacts(c, t);
          c, t := c.up, Painted(Close(c, t), true);
          return;
        }
        var done := InsertStep(node, parent, grandparent, c, t, s);
        if done {
          RaisedIsProper(c, t);
          c, t := c.up.up, Raised(c, t);
          return;
        }
        PushedUpFacts(c, t);
        c, t := c.up.up, PushedUp(c, t);
        node := grandparent;
        parent := grandparent.parent;
      }
    }

    /** Both a red node and its red parent below a grandparent: the two cases of the loop body. */
    method InsertStep(node: Node, parent: Node, grandparent: Node, ghost c: Ctx, ghost t: Shape, ghost s: set<Node>)
      returns (done: bool)
      requires Focus(c, t, Fields(s)) && RedRed(c, t) && t.n == node && c.n == parent && c.up.n == grandparent
      requires root == RootOf(c, node)
      modifies this`root, s
      ensures done == BlackRoot(c.up.side)
      ensures done ==> Focus(c.up.up, Raised(c, t), Fields(s)) && root == RootOf(c.up.up, Raised(c, t).n)
      ensures !done ==> Focus(c.up.up, PushedUp(c, t), Fields(s)) && root == RootOf(c.up.up, grandparent)
    {
      assert parent.IsLeftChild() <==> c.up.L? by {
        FocusUp(c, t, Fields(s));
        WhichChild(c.up, Close(c, t), Fields(s));
      }
      var uncle := if parent.IsLeftChild() then grandparent.right else grandparent.left;
      assert uncle == Root(c.up.side) && (uncle != null ==> uncle in s && uncle.black == c.up.side.b) by {
        OuterFacts(c, t);
        assert CtxAt(c.up, c.n, Fields(s));
        assert TreeAt(c.up.side, c.up.n, Fields(s));
      }
      done := IsBlack(uncle);
      if done {
        RaiseParent(node, parent, grandparent, c, t, s);
      } else {
        PushRedUp(parent, uncle, grandparent, c, t, s);
      }
    }

    /** The uncle is black: rotate the parent into the grandparent's place and swap their colours. */
    method RaiseParent(node: Node, parent0: Node, grandparent: Node, ghost c: Ctx, ghost t: Shape, ghost s: set<Node>)
      requires Focus(c, t, Fields(s)) && RedRed(c, t) && t.n == node && c.n == parent0 && c.up.n == grandparent
      requires root == RootOf(c, node)
      modifies this`root, s
      ensures Focus(c.up.up, Raised(c, t), Fields(s)) && root == RootOf(c.up.up, Raised(c, t).n)
    {
      assert root == RootOf(c.up.up, grandparent);
      assert root == grandparent <==> c.up.up.Top? by {
        FocusUp(c, t, Fields(s));
        FocusUp(c.up, Close(c, t), Fields(s));
        RootIsFocus(c.up.up, Close(c.up, Close(c, t)), Fields(s));
      }
      var parent := MakeOuter(node, parent0, grandparent, c, t, s);
      OuterFacts(c, t);
      assert parent.IsLeftChild() <==> c.up.L? by { WhichChild(c.up, Outer(c, t), Fields(s)); }
      if parent.IsLeftChild() {
        RaiseLeft(parent, grandparent, c.up, Outer(c, t), s);
      } else {
        RaiseRight(parent, grandparent, c.up, Outer(c, t), s);
      }
      if !c.up.up.Top? { RootOfContext(c.up.up, grandparent, parent); }
      if root == grandparent {
        SetRoot(parent, s);
      }
    }
  }

  /** Parent and uncle are red: both turn black and the grandparent turns red. */
  method PushRedUp(parent: Node, uncle: Node, grandparent: Node, ghost c: Ctx, ghost t: Shape, ghost s: set<Node>)
    requires Focus(c, t, Fields(s)) && RedRed(c, t) && c.n == parent && c.up.n == grandparent
    requires c.up.side.Fork? && c.up.side.n == uncle
    modifies s
    ensures Focus(c.up.up, PushedUp(c, t), Fields(s))
  {
    ghost var p := Close(c, t);
    FocusUp(c, t, Fields(s));
    parent.SetBlack(c.up, p, s);
    p := Painted(p, true);
    FocusUp(c.up, p, Fields(s));
    ghost var d := if c.up.L? then R(c.up.n, c.up.b, p, c.up.up) else L(c.up.n, c.up.b, p, c.up.up);
    FocusUp(d, c.up.side, Fields(s));
    uncle.SetBlack(d, c.up.side, s);
    FocusUp(d, Painted(c.up.side, true), Fields(s));
    grandparent.SetRed(c.up.up, Close(d, Painted(c.up.side, true)), s);
  }

  ghost function PushedUp(c: Ctx, t: Shape): (r: Shape)
    requires RedRed(c, t) && c.up.side.Fork?
    ensures r.Fork? && !r.b && r.n == c.up.n
  {
    Close(c.up.(b := false, side := Painted(c.up.side, true)), Painted(Close(c, t), true))
  }

  lemma PushedUpFacts(c: Ctx, t: Shape)
    requires RedRed(c, t) && c.up.side.Fork? && !c.up.side.b
    ensures Balanced(PushedUp(c, t)) && Fits(c.up.up, BlackHeight(PushedUp(c, t))) && Whole(PushedUp(c, t))
    ensures WholeCtx(c.up.up)
    ensures Seq(c.up.up, PushedUp(c, t)) == Seq(c, t)
  {
    SeqUp(c, t);
    SeqUp(c.up, Close(c, t));
    assert c.up.b && Fits(c.up, BlackHeight(t)) && WholeCtx(c.up);
    assert Whole(c.up.side.l) && Whole(c.up.side.r);
    assert In(Painted(c.up.side, true)) == In(c.up.side);
    assert In(Painted(Close(c, t), true)) == In(Close(c, t));
  }

  /** Rotate an inner node above its parent, so that the red pair lies on the outside. */
  method MakeOuter(node: Node, parent0: Node, grandparent: Node, ghost c: Ctx, ghost t: Shape, ghost s: set<Node>)
    returns (parent: Node)
    requires Focus(c, t, Fields(s)) && RedRed(c, t) && t.n == node && c.n == parent0 && c.up.n == grandparent
    modifies s
    ensures Focus(c.up, Outer(c, t), Fields(s)) && parent == Outer(c, t).n
  {
    parent := parent0;
    FocusUp(c, t, Fields(s));
    WhichChild(c, t, Fields(s));
    WhichChild(c.up, Close(c, t), Fields(s));
    OuterFacts(c, t);
    if parent.IsLeftChild() {
      if node.IsRightChild() {
        var _ := parent.RotateLeft(c.up, Close(c, t), s);
        parent := node;
      }
    } else {
      if node.IsLeftChild() {
        var _ := parent.RotateRight(c.up, Close(c, t), s);
        parent := node;
      }
    }
  }

  method RaiseLeft(parent: Node, grandparent: Node, ghost c: Ctx, ghost t: Shape, ghost s: set<Node>)
    requires Focus(c, t, Fields(s)) && c.L? && t.Fork? && !t.r.Doomed? && t.n == parent && c.n == grandparent
    modifies s
    ensures Focus(c.up, Fork(t.l, t.n, true, Fork(t.r, c.n, false, c.side)), Fields(s))
  {
    FocusUp(c, t, Fields(s));
    ghost var t1 := Close(c, t);
    var _ := grandparent.RotateRight(c.up, t1, s);
    t1 := RotR(t1);
    parent.SetBlack(c.up, t1, s);
    t1 := Painted(t1, true);
    ghost var d := R(t1.n, t1.b, t1.l, c.up);
    FocusUp(d, t1.r, Fields(s));
    grandparent.SetRed(d, t1.r, s);
    FocusUp(d, Painted(t1.r, false), Fields(s));
  }

  method RaiseRight(parent: Node, grandparent: Node, ghost c: Ctx, ghost t: Shape, ghost s: set<Node>)
    requires Focus(c, t, Fields(s)) && c.R? && t.Fork? && !t.l.Doomed? && t.n == parent && c.n == grandparent
    modifies s
    ensures Focus(c.up, Fork(Fork(c.side, c.n, false, t.l), t.n, true, t.r), Fields(s))
  {
    FocusUp(c, t, Fields(s));
    ghost var t1 := Close(c, t);
    var _ := grandparent.RotateLeft(c.up, t1, s);
    t1 := RotL(t1);
    parent.SetBlack(c.up, t1, s);
    t1 := Painted(t1, true);
    ghost var d := L(t1.n, t1.b, t1.r, c.up);
    FocusUp(d, t1.l, Fields(s));
    grandparent.SetRed(d, t1.l, s);
    FocusUp(d, Painted(t1.l, false), Fields(s));
  }

  /** The focus is red; apart from the edge to its parent everything is balanced. */
  ghost predicate Reddened(c: Ctx, t: Shape) {
    t.Fork? && !t.b && Balanced(t) && Fits(c, BlackHeight(t)) && Whole(t) && WholeCtx(c)
  }

  lemma BlackenedFacts(c: Ctx, t: Shape)
    requires Reddened(c, t) && !c.Top? && !c.b && c.up.Top?
    ensures Proper(c.up, Painted(Close(c, t), true)) && Whole(Painted(Close(c, t), true))
    ensures Seq(c.up, Painted(Close(c, t), true)) == Seq(c, t)
  {
    SeqUp(c, t);
    assert In(Painted(Close(c, t), true)) == In(Close(c, t));
  }

  /** The focus is red below a red parent that is not the root; everything else is balanced. */
  ghost predicate RedRed(c: Ctx, t: Shape) {
    && Reddened(c, t)
    && !c.Top? && !c.b && !c.up.Top?
  }

  /** The red pair as an outer pair: the upper node with the lower one on the outside. */
  ghost function Outer(c: Ctx, t: Shape): (r: Shape)
    requires RedRed(c, t)
    ensures r.Fork?
  {
    if c.up.L? && c.R? then RotL(Close(c, t))
    else if c.up.R? && c.L? then RotR(Close(c, t))
    else Close(c, t)
  }

  ghost function Raised(c: Ctx, t: Shape): (r: Shape)
    requires RedRed(c, t)
    ensures r.Fork?
  {
    var p := Outer(c, t);
    if c.up.L? then Fork(p.l, p.n, true, Fork(p.r, c.up.n, false, c.up.side))
    else Fork(Fork(c.up.side, c.up.n, false, p.l), p.n, true, p.r)
  }

  lemma OuterFacts(c: Ctx, t: Shape)
    requires RedRed(c, t)
    ensures Whole(Outer(c, t)) && Whole(Outer(c, t).l) && Whole(Outer(c, t).r) && Whole(c.side)
    ensures Whole(t.l) && Whole(t.r) && Whole(c.up.side)
    ensures In(Outer(c, t)) == In(Close(c, t))
  {
    assert Whole(Close(c, t)) && WholeCtx(c.up);
    if c.up.L? && c.R? { RotLFacts(Close(c, t)); }
    if c.up.R? && c.L? { RotRFacts(Close(c, t)); }
    assert Whole(Outer(c, t));
  }

  lemma RaisedIsProper(c: Ctx, t: Shape)
    requires RedRed(c, t) && BlackRoot(c.up.side)
    ensures Proper(c.up.up, Raised(c, t)) && Whole(Raised(c, t)) && WholeCtx(c.up.up)
    ensures Seq(c.up.up, Raised(c, t)) == Seq(c, t)
  {
    OuterFacts(c, t);
    assert WholeCtx(c.up);
    SeqUp(c, t);
    SeqUp(c.up, Close(c, t));
    RaisedIsBalanced(c, t);
    if c.up.L? {
      RotRFacts(Close(c.up, Outer(c, t)));
      assert Whole(Raised(c, t).r) && In(Raised(c, t).r) == In(RotR(Close(c.up, Outer(c, t))).r);
    } else {
      RotLFacts(Close(c.up, Outer(c, t)));
      assert Whole(Raised(c, t).l) && In(Raised(c, t).l) == In(RotL(Close(c.up, Outer(c, t))).l);
    }
  }

  lemma RaisedIsBalanced(c: Ctx, t: Shape)
    requires RedRed(c, t) && BlackRoot(c.up.side)
    ensures Proper(c.up.up, Raised(c, t))
  {
    assert c.up.b && Balanced(c.side) && Fits(c.up, BlackHeight(t));
  }

  method LowerLinks(node: Node, parent: Node, sibling: Node, ghost c: Ctx, ghost t: Shape, ghost s: set<Node>)
    requires Focus(c, t, Fields(s)) && Short(c, t) && Root(t) == node && !c.Top? && c.n == parent
    requires c.side.Fork? && c.side.n == sibling && !c.side.b
    modifies s
    ensures Focus(Lowered(c), t, Fields(s)) && parent.parent == sibling
  {
    SiblingExists(c, t);
    ghost var p := Close(c, t);
    FocusUp(c, t, Fields(s));
    parent.SetRed(c.up, p, s);
    ghost var d := if c.L? then R(c.n, false, t, c.up) else L(c.n, false, t, c.up);
    FocusUp(d, c.side, Fields(s));
    sibling.SetBlack(d, c.side, s);
    p := Close(d, Painted(c.side, true));
    FocusUp(d, Painted(c.side, true), Fields(s));
    ghost var e := if c.L? then L(c.n, false, Painted(c.side, true), c.up)
      else R(c.n, false, Painted(c.side, true), c.up);
    FocusUp(e, t, Fields(s));
    WhichChild(e, t, Fields(s));
    if node.IsLeftChild() {
      var _ := parent.RotateLeft(c.up, p, s);
    } else {
      var _ := parent.RotateRight(c.up, p, s);
    }
    FocusUp(Lowered(c), t, Fields(s));
    FocusUp(Lowered(c).up, Close(Lowered(c), t), Fields(s));
  }

  method Nephews(node: Node, sibling: Node, ghost c: Ctx, ghost t: Shape, ghost s: set<Node>)
    returns (closeNephew: Node?, distantNephew: Node?, red: bool)
    requires Focus(c, t, Fields(s)) && Short(c, t) && Root(t) == node && !c.Top?
    requires c.side.Fork? && c.side.b && c.side.n == sibling
    ensures closeNephew == Root(CloseNephew(c)) && distantNephew == Root(DistantNephew(c)) && red == RedNephew(c)
  {
    NephewFacts(c, t, Fields(s));
    closeNephew := if node.IsLeftChild() then sibling.left else sibling.right;
    distantNephew := if node.IsLeftChild() then sibling.right else sibling.left;
    red := !IsBlack(distantNephew) || !IsBlack(closeNephew);
  }

  /** Blacken the root of a subtree and give it another parent. */
  method Reseat(child: Node, q: Node?, ghost s: set<Node>, ghost u: Shape, ghost p: Node?)
    requires u.Fork? && u.n == child && TreeAt(u, p, Fields(s))
    modifies child`black, child`parent
    ensures TreeAt(Painted(u, true), q, Fields(s))
  {
    ghost var h := Fields(s);
    child.black := true;
    child.parent := q;
    TreeFrame(u.l, child, h, Fields(s));
    TreeFrame(u.r, child, h, Fields(s));
  }

  method RotateNephewOut(node: Node, sibling0: Node, closeNephew: Node?, distantNephew0: Node?,
                         ghost c: Ctx, ghost t: Shape, ghost s: set<Node>)
    returns (sibling: Node, distantNephew: Node)
    requires Focus(c, t, Fields(s)) && Short(c, t) && Root(t) == node && !c.Top?
    requires c.side.Fork? && c.side.b && c.side.n == sibling0 && RedNephew(c)
    requires closeNephew == Root(CloseNephew(c)) && distantNephew0 == Root(DistantNephew(c))
    modifies s
    ensures Focus(Outward(c), t, Fields(s))
    ensures sibling == Outward(c).side.n && DistantNephew(Outward(c)).Fork?
    ensures distantNephew == Root(DistantNephew(Outward(c)))
  {
    SiblingExists(c, t);
    NephewFacts(c, t, Fields(s));
    WhichChild(c, t, Fields(s));
    if IsBlack(distantNephew0) { // close red, distant black
      ghost var d := Facing(c, t);
      FacingFocus(c, t, Fields(s));
      ghost var u;
      if node.IsLeftChild() {
        var _ := sibling0.RotateRight(d, c.side, s);
        u := RotR(c.side);
      } else {
        var _ := sibling0.RotateLeft(d, c.side, s);
        u := RotL(c.side);
      }
      distantNephew := sibling0;
      sibling := closeNephew;
      PaintPair(sibling, distantNephew, d, u, c.L?, s);
      FacingFocus(Outward(c), t, Fields(s));
    } else {
      sibling, distantNephew := sibling0, distantNephew0;
    }
  }

  /** The child `lower` (on the right if `onRight`) turns red, its parent `upper` black. */
  method PaintPair(upper: Node, lower: Node, ghost d: Ctx, ghost u: Shape, ghost onRight: bool, ghost s: set<Node>)
    requires Focus(d, u, Fields(s)) && u.Fork? && u.n == upper
    requires if onRight then u.r.Fork? && u.r.n == lower else u.l.Fork? && u.l.n == lower
    modifies s
    ensures Focus(d, if onRight then Fork(u.l, u.n, true, Painted(u.r, false))
      else Fork(Painted(u.l, false), u.n, true, u.r), Fields(s))
  {
    ghost var e := if onRight then R(u.n, u.b, u.l, d) else L(u.n, u.b, u.r, d);
    ghost var v := if onRight then u.r else u.l;
    FocusUp(e, v, Fields(s));
    lower.SetRed(e, v, s);
    FocusUp(e, Painted(v, false), Fields(s));
    upper.SetBlack(d, Close(e, Painted(v, false)), s);
  }

  /** The distant nephew is red: rotate the sibling above the parent. */
  method RaiseSibling(node: Node, parent: Node, sibling: Node, distantNephew: Node, ghost c: Ctx, ghost t: Shape,
                      ghost s: set<Node>)
    requires Focus(c, t, Fields(s)) && Short(c, t) && Root(t) == node && !c.Top? && c.n == parent
    requires c.side.Fork? && c.side.b && c.side.n == sibling
    requires DistantNephew(c).Fork? && DistantNephew(c).n == distantNephew
    modifies s
    ensures Focus(c.up, Raise(c, t), Fields(s))
  {
    SiblingExists(c, t);
    RaiseLinks(node, parent, c, t, s);
    // Swap parent and sibling colours, then blacken the distant nephew.
    ghost var p := Lifted(c, t);
    if parent.black {
      sibling.SetBlack(c.up, p, s);
    } else {
      sibling.SetRed(c.up, p, s);
    }
    BlackenChildren(parent, distantNephew, Painted(p, c.b), c, s);
  }

  ghost function Lifted(c: Ctx, t: Shape): Shape
    requires !c.Top? && c.side.Fork?
  {
    if c.L? then RotL(Close(c, t)) else RotR(Close(c, t))
  }

  method RaiseLinks(node: Node, parent: Node, ghost c: Ctx, ghost t: Shape, ghost s: set<Node>)
    requires Focus(c, t, Fields(s)) && Root(t) == node && !t.Leaf? && !c.Top? && c.n == parent
    requires c.side.Fork? && !c.side.l.Doomed? && !c.side.r.Doomed?
    modifies s
    ensures Focus(c.up, Lifted(c, t), Fields(s)) && parent.black == c.b
  {
    WhichChild(c, t, Fields(s));
    FocusUp(c, t, Fields(s));
    if node.IsLeftChild() {
      var _ := parent.RotateLeft(c.up, Close(c, t), s);
      assert TreeAt(Lifted(c, t).l, c.side.n, Fields(s));
    } else {
      var _ := parent.RotateRight(c.up, Close(c, t), s);
      assert TreeAt(Lifted(c, t).r, c.side.n, Fields(s));
    }
  }

  method BlackenChildren(parent: Node, distantNephew: Node, ghost p: Shape, ghost c: Ctx, ghost s: set<Node>)
    requires !c.Top? && p.Fork? && p.l.Fork? && p.r.Fork? && Focus(c.up, p, Fields(s))
    requires if c.L? then p.l.n == parent && p.r.n == distantNephew else p.r.n == parent && p.l.n == distantNephew
    modifies s
    ensures Focus(c.up, Fork(Painted(p.l, true), p.n, p.b, Painted(p.r, true)), Fields(s))
  {
    ghost var e := if c.L? then L(p.n, p.b, p.r, c.up) else R(p.n, p.b, p.l, c.up);
    ghost var v := if c.L? then p.l else p.r;
    FocusUp(e, v, Fields(s));
    parent.SetBlack(e, v, s);
    FacingFocus(e, Painted(v, true), Fields(s));
    ghost var f := Facing(e, Painted(v, true));
    distantNephew.SetBlack(f, e.side, s);
    FocusUp(f, Painted(e.side, true), Fields(s));
  }

  /** No red nephew: sibling red, parent black. */
  method Level(parent: Node, sibling: Node, ghost c: Ctx, ghost t: Shape, ghost s: set<Node>)
    requires !c.Top? && Focus(c, t, Fields(s)) && c.side.Fork? && c.n == parent && c.side.n == sibling
    modifies s
    ensures Focus(c.up, Levelled(c, t), Fields(s))
  {
    FacingFocus(c, t, Fields(s));
    ghost var f := Facing(c, t);
    sibling.SetRed(f, c.side, s);
    FocusUp(f, Painted(c.side, false), Fields(s));
    parent.SetBlack(c.up, Close(f, Painted(c.side, false)), s);
  }

  /** Walk down the left spine of the right subtree. */
  method Successor(node: Node, ghost c: Ctx, ghost t: Shape, ghost s: set<Node>)
    returns (curr: Node, ghost e: Ctx, ghost v: Shape)
    requires Focus(c, t, Fields(s)) && t.Fork? && t.n == node && t.r.Fork? && Whole(t)
    ensures Focus(e, v, Fields(s)) && v.Fork? && v.n == curr && v.l.Leaf?
    ensures Spine(e, R(t.n, t.b, t.l, c)) && Unwound(e, R(t.n, t.b, t.l, c), v) == t.r
  {
    ghost var base := R(t.n, t.b, t.l, c);
    curr := node.right;
    e, v := base, t.r;
    FocusUp(e, v, Fields(s));
    assert TreeAt(v, node, Fields(s));
    while curr.left != null
      invariant Focus(e, v, Fields(s)) && v.Fork? && v.n == curr && Whole(v)
      invariant Spine(e, base) && Unwound(e, base, v) == t.r
      decreases v
    {
      curr := curr.left;
      e, v := L(v.n, v.b, v.r, e), v.l;
      FocusUp(e, v, Fields(s));
    }
  }

  /** `e` goes left from `base` at every step. */
  ghost predicate Spine(e: Ctx, base: Ctx) {
    e == base || (e.L? && Spine(e.up, base))
  }

  /** The subtree of the base in which the path ends at `v`. */
  ghost function Unwound(e: Ctx, base: Ctx, v: Shape): Shape
    requires Spine(e, base)
  {
    if e == base then v else Unwound(e.up, base, Close(e, v))
  }

  lemma UnwoundFacts(e: Ctx, base: Ctx, v: Shape)
    requires Spine(e, base)
    ensures SameTree(base, Unwound(e, base, v), e, v)
  {
    if e != base {
      UpIsSame(e, v);
      UnwoundFacts(e.up, base, Close(e, v));
    }
  }

  lemma UnwoundOrder(e: Ctx, base: Ctx, v: Shape)
    requires Spine(e, base)
    ensures In(v) + After(e) == In(Unwound(e, base, v)) + After(base)
  {
    if e != base {
      UnwoundOrder(e.up, base, Close(e, v));
      LeftStep(e, v);
    }
  }

  lemma LeftStep(e: Ctx, v: Shape)
    requires e.L?
    ensures In(Close(e, v)) + After(e.up) == In(v) + After(e)
  {
  }

  /** The same path hanging off another base. */
  ghost function Rebase(e: Ctx, base: Ctx, base2: Ctx): Ctx
    requires Spine(e, base)
  {
    if e == base then base2 else L(e.n, e.b, e.side, Rebase(e.up, base, base2))
  }

  lemma RebaseFacts(e: Ctx, base: Ctx, y: Node, x: Node?, k: nat)
    requires base.R? && Spine(e, base)
    ensures var e2 := Rebase(e, base, R(y, base.b, base.side, base.up));
      && (Fits(e2, k) <==> Fits(e, k)) && (WholeCtx(e2) <==> WholeCtx(e)) && (BlackTop(e2) <==> BlackTop(e))
      && Before(e2) == Before(base.up) + In(base.side) + [y] && After(e2) == After(e)
      && RootOf(e2, x) == RootOf(base.up, y)
    ensures Before(e) == Before(base.up) + In(base.side) + [base.n]
  {
    if e != base {
      RebaseFacts(e.up, base, y, e.n, k + Step(e.b));
    }
  }

  lemma ExchangeFacts(c: Ctx, t: Shape, e: Ctx, v: Shape)
    requires t.Fork? && v.Fork? && v.l.Leaf? && Spine(e, R(t.n, t.b, t.l, c))
    requires Unwound(e, R(t.n, t.b, t.l, c), v) == t.r
    requires Proper(c, t) && Whole(t) && WholeCtx(c)
    ensures var c' := Rebase(e, R(t.n, t.b, t.l, c), R(v.n, t.b, t.l, c)); var t' := Fork(Leaf, t.n, v.b, v.r);
      && Proper(c', t') && Whole(t') && WholeCtx(c') && RootOf(c', t.n) == RootOf(c, v.n) && Rest(c', t') == Rest(c, t)
  {
    var base := R(t.n, t.b, t.l, c);
    UnwoundFacts(e, base, v);
    UpIsSame(base, t.r);
    RebaseFacts(e, base, v.n, t.n, BlackHeight(v));
    ExchangeOrder(c, t, e, v);
  }

  lemma ExchangeOrder(c: Ctx, t: Shape, e: Ctx, v: Shape)
    requires t.Fork? && v.Fork? && v.l.Leaf? && Spine(e, R(t.n, t.b, t.l, c))
    requires Unwound(e, R(t.n, t.b, t.l, c), v) == t.r
    ensures Rest(Rebase(e, R(t.n, t.b, t.l, c), R(v.n, t.b, t.l, c)), Fork(Leaf, t.n, v.b, v.r)) == Rest(c, t)
  {
    var base := R(t.n, t.b, t.l, c);
    var c' := Rebase(e, base, R(v.n, t.b, t.l, c));
    UnwoundOrder(e, base, v);
    RebaseFacts(e, base, v.n, t.n, 0);
    assert In(v) == [v.n] + In(v.r);
    assert Rest(c', Fork(Leaf, t.n, v.b, v.r)) == Before(c) + In(t.l) + (In(v) + After(e));
    assert Rest(c, t) == Before(c) + In(t.l) + (In(t.r) + After(c));
  }

  /** The child of the base on the way to the hole. */
  ghost function SpineTop(e: Ctx, base: Ctx, x: Node?): Node?
    requires Spine(e, base)
  {
    if e == base then x else SpineTop(e.up, base, e.n)
  }

  lemma SpineFacts(e: Ctx, base: Ctx, x: Node?, h: Store)
    requires base.R? && Spine(e, base) && CtxAt(e, x, h)
    ensures CtxAt(base, SpineTop(e, base, x), h) && CtxNodes(base) <= CtxNodes(e)
    ensures e != base ==> SpineTop(e, base, x) in CtxNodes(e) - CtxNodes(base) && e.n !in CtxNodes(base)
  {
    if e != base { SpineFacts(e.up, base, e.n, h); }
  }

  lemma SpineAllocated(e: Ctx, base: Ctx, x: Node, h: Store)
    requires base.R? && Spine(e, base) && CtxAt(e, x, h) && x in h
    ensures SpineTop(e, base, x) in h
  {
    if e != base { SpineAllocated(e.up, base, e.n, h); }
  }

  lemma RebaseNodes(e: Ctx, base: Ctx, y: Node, x: Node?, h: Store)
    requires base.R? && Spine(e, base) && CtxAt(e, x, h)
    ensures CtxNodes(Rebase(e, base, R(y, base.b, base.side, base.up))) == CtxNodes(e) - {base.n} + {y}
  {
    if e != base {
      SpineFacts(e.up, base, e.n, h);
      RebaseNodes(e.up, base, y, e.n, h);
    }
  }

  /** Below the base only the topmost node changes, and only its parent link. */
  lemma RebaseAt(e: Ctx, base: Ctx, y: Node, x: Node?, h: Store, k: Store)
    requires base.R? && Spine(e, base) && CtxAt(e, x, h) && y !in CtxNodes(e)
    requires CtxAt(R(y, base.b, base.side, base.up), SpineTop(e, base, x), k)
    requires forall m :: m in CtxNodes(e) - CtxNodes(base) && m in h ==>
      m in k && k[m] == if m == SpineTop(e, base, x) then h[m].(parent := y) else h[m]
    ensures CtxAt(Rebase(e, base, R(y, base.b, base.side, base.up)), x, k)
  {
    if e != base {
      SpineFacts(e.up, base, e.n, h);
      RebaseNodes(e.up, base, y, e.n, h);
      TreeFrame(e.side, e.n, h, k);
      RebaseAt(e.up, base, y, e.n, h, k);
    }
  }

  /** The nodes the exchange writes are allocated and distinct where the code relies on it. */
  lemma ExchangeIsSafe(base: Ctx, e: Ctx, v: Shape, h: Store)
    requires base.R? && Spine(e, base) && v.Fork? && v.l.Leaf? && Focus(e, v, h) && base.side.Fork?
    ensures var (x, y, top, p, l, w) := (base.n, v.n, SpineTop(e, base, v.n), Parent(base.up), Root(base.side),
      Root(v.r));
      && x in h && h[x] == Cell(p, base.b, l, top) && y in h && h[y] == Cell(Parent(e), v.b, null, w)
      && l in h && x != y && l != x && l != y && l != w && w != x && w != y && (w != null ==> w in h)
      && (p != null ==> p in h && p != x && p != y && p != l && p != w && p != top && p != Parent(e))
      && (base.up.L? <==> p != null && h[p].left == x) && (base.up.R? <==> p != null && h[p].right == x)
      && (e == base <==> top == y)
      && (e != base ==> && e.n in h && top in h && h[e.n].left == y
                        && e.n !in {x, y, l} && top !in {x, y, l} && e.n != w && top != w)
  {
    SpineFacts(e, base, v.n, h);
    assert TreeAt(v.r, v.n, h) && TreeAt(base.side, base.n, h);
    SpineAllocated(e, base, v.n, h);
    if !base.up.Top? { HoleSide(base.up, base.n, h); }
  }

  /** What the exchange leaves in the store. `y` is the successor, `p` its parent. */
  ghost predicate Exchanged(base: Ctx, e: Ctx, v: Shape, h: Store, k: Store)
    requires base.R? && Spine(e, base) && v.Fork?
  {
    var (x, y, top) := (base.n, v.n, SpineTop(e, base, v.n));
    && y in k && k[y] == Cell(Parent(base.up), base.b, Root(base.side), if e == base then x else top)
    && x in k && k[x] == Cell(if e == base then y else e.n, v.b, null, Root(v.r))
    && Relinked(base.up, y, h, k)
    && (base.side.Fork? ==> base.side.n in h && base.side.n in k && k[base.side.n] == h[base.side.n].(parent := y))
    && (v.r.Fork? ==> v.r.n in h && v.r.n in k && k[v.r.n] == h[v.r.n].(parent := x))
    && (e != base ==> e.n in h && e.n in k && k[e.n] == Cell(if e.n == top then y
          else h[e.n].parent, h[e.n].black, x, h[e.n].right))
    && (e != base && top != e.n ==> top in h && top in k && k[top] == h[top].(parent := y))
    && (forall m | m in h && m !in {x, y} && m != Parent(base.up) && m != Root(base.side) && m != Root(v.r)
                   && (e != base ==> m != e.n && m != top) :: m in k && k[m] == h[m])
  }

  lemma ExchangedBase(base: Ctx, e: Ctx, v: Shape, h: Store, k: Store)
    requires base.R? && Spine(e, base) && v.Fork? && v.l.Leaf? && Focus(e, v, h) && Exchanged(base, e, v, h, k)
    requires !base.side.Doomed?
    ensures CtxAt(R(v.n, base.b, base.side, base.up), if e == base then base.n else SpineTop(e, base, v.n), k)
  {
    SpineFacts(e, base, v.n, h);
    MovedSubtree(base.side, base.n, v.n, h, k);
    MovedHole(base.up, base.n, v.n, h, k);
  }

  lemma ExchangedPath(base: Ctx, e: Ctx, v: Shape, h: Store, k: Store)
    requires base.R? && Spine(e, base) && v.Fork? && v.l.Leaf? && Focus(e, v, h) && Exchanged(base, e, v, h, k)
    requires !base.side.Doomed?
    ensures CtxAt(Rebase(e, base, R(v.n, base.b, base.side, base.up)), base.n, k)
  {
    SpineFacts(e, base, v.n, h);
    ExchangedBase(base, e, v, h, k);
    if e != base {
      SpineFacts(e.up, base, e.n, h);
      RebaseNodes(e.up, base, v.n, e.n, h);
      TreeFrame(e.side, e.n, h, k);
      RebaseAt(e.up, base, v.n, e.n, h, k);
    }
  }

  lemma ExchangedFocus(base: Ctx, e: Ctx, v: Shape, h: Store, k: Store)
    requires base.R? && Spine(e, base) && v.Fork? && v.l.Leaf? && Focus(e, v, h) && Exchanged(base, e, v, h, k)
    requires !base.side.Doomed? && !v.r.Doomed?
    ensures Focus(Rebase(e, base, R(v.n, base.b, base.side, base.up)), Fork(Leaf, base.n, v.b, v.r), k)
  {
    SpineFacts(e, base, v.n, h);
    ExchangedPath(base, e, v, h, k);
    RebaseNodes(e, base, v.n, v.n, h);
    MovedSubtree(v.r, v.n, base.n, h, k);
  }

  method ExchangeLinks(node: Node, curr: Node, ghost base: Ctx, ghost e: Ctx, ghost v: Shape, ghost s: set<Node>)
    requires base.R? && base.n == node && Spine(e, base) && v.Fork? && v.n == curr && v.l.Leaf?
    requires Focus(e, v, Fields(s)) && base.side.Fork? && !v.r.Doomed?
    modifies s
    ensures Exchanged(base, e, v, old(Fields(s)), Fields(s))
  {
    ExchangeIsSafe(base, e, v, Fields(s));
    Exchange(node, curr);
  }

  /** The pointer surgery of the exchange, on the fields alone. */
  method Exchange(node: Node, curr: Node)
    requires node != curr && node.left != null && node.right != null && curr.left == null
    requires node.left !in {node, curr} && curr.right !in {node, curr} && node.left != curr.right
    requires node.parent != null ==> node.parent !in {node, curr, node.left, node.right, curr.parent, curr.right}
    requires node.parent != null ==> node.IsLeftChild() || node.IsRightChild()
    requires curr.parent != null && (node.right == curr <==> curr.parent == node)
    requires node.right != curr ==> curr.parent.left == curr && curr.parent !in {curr, node.left, curr.right}
    requires node.right != curr ==> node.right !in {node, node.left, curr.right}
    modifies node, curr, node.parent, node.left, node.right, curr.parent, curr.right
    ensures Is(curr, old(node.parent), old(node.black), old(node.left), if old(node.right) == curr then node
      else old(node.right))
    ensures Is(node, if old(node.right) == curr then curr else old(curr.parent), old(curr.black), null, old(curr.right))
    ensures Is(curr.left, curr, old(node.left.black), old(node.left.left), old(node.left.right))
    ensures old(curr.right) != null ==>
      Is(node.right, node, old(curr.right.black), old(curr.right.left), old(curr.right.right))
    ensures old(node.parent) != null ==>
      Is(curr.parent, old(node.parent.parent), old(node.parent.black),
         if old(node.parent.left) == node then curr else old(node.parent.left),
         if old(node.parent.left) != node then curr else old(node.parent.right))
    ensures old(node.right) != curr ==>
      && Is(node.parent, if curr.right == node.parent then curr
          else old(curr.parent.parent), old(curr.parent.black), node, old(curr.parent.right))
      && (curr.right != node.parent ==> Is(curr.right, curr, old(node.right.black), old(node.right.left),
            old(node.right.right)))
  {
    curr.left, node.left := node.left, curr.left;
    curr.parent, node.parent := node.parent, curr.parent;
    curr.black, node.black := node.black, curr.black;
    if node.right == curr {
      node.right := curr.right;
      node.parent := curr;
      curr.right := node;
    } else {
      curr.right, node.right := node.right, curr.right;
      node.parent.ReplaceChild(curr, node);
      curr.right.parent := curr;
    }
    Readdress(node, curr);
  }

  /** The neighbours of the exchanged nodes follow. */
  method Readdress(node: Node, curr: Node)
    requires node != curr && curr.left != null && node.left == null && curr.left !in {node, curr}
    requires node.right !in {node, curr}
    requires curr.left != node.right
    requires curr.parent != null ==> curr.parent !in {node, curr, curr.left, node.right}
    requires curr.parent != null ==> curr.parent.left == node || curr.parent.right == node
    modifies curr.parent, curr.left, node.right
    ensures Is(curr.left, curr, old(curr.left.black), old(curr.left.left), old(curr.left.right))
    ensures node.right != null ==> Is(node.right, node, old(node.right.black), old(node.right.left),
      old(node.right.right))
    ensures curr.parent != null ==>
      Is(curr.parent, old(curr.parent.parent), old(curr.parent.black),
         if old(curr.parent.left) == node then curr else old(curr.parent.left),
         if old(curr.parent.left) != node then curr else old(curr.parent.right))
  {
    if curr.parent != null {
      curr.parent.ReplaceChild(node, curr);
    }
    curr.left.parent := curr;
    assert node.left == null; // the successor had no left child to adopt
    if node.right != null {
      node.right.parent := node;
    }
  }

  ghost predicate Is(n: Node, parent: Node?, black: bool, left: Node?, right: Node?)
    reads n
  {
    n.parent == parent && n.black == black && n.left == left && n.right == right
  }

  // ---- removal: the pure part of each case -----------------------------------------------------

  /** `t` is balanced with a black root but lacks one black level. */
  ghost predicate Short(c: Ctx, t: Shape) {
    Balanced(t) && BlackRoot(t) && Fits(c, BlackHeight(t) + 1) && WholeCtx(c) && !t.Leaf?
  }

  /** Exactly one doomed leaf. */
  ghost predicate Lone(t: Shape, x: Node, p: Node) {
    match t
    case Leaf => false
    case Doomed(n, q) => n == x && q == p
    case Fork(l, _, _, r) => (Lone(l, x, p) && Whole(r)) || (Whole(l) && Lone(r, x, p))
  }

  lemma LeafFacts(c: Ctx, t: Shape, h: Store)
    requires Focus(c, t, h) && t.Fork? && t.l.Leaf? && t.r.Leaf? && Proper(c, t)
    ensures t.n in h && h[t.n].black == t.b && h[t.n].parent == Parent(c)
    ensures t.b && !c.Top? ==> Focus(c, Doomed(t.n, c.n), h) && Fits(c, 2)
    ensures !t.b || c.Top? ==> Proper(c, Leaf)
    ensures Seq(c, Leaf) == Before(c) + After(c) && |Seq(c, t)| == |Before(c)| + |After(c)| + 1
  {
    assert BlackHeight(t) == 1 + Step(t.b);
    assert In(t) == [t.n];
  }

  lemma SameNodes(c: Ctx, d: Ctx, x: Node, p: Node)
    requires WholeCtx(c) && WholeCtx(d) && Seq(c, Doomed(x, p)) == Seq(d, Doomed(x, p))
    ensures CtxNodes(c) == CtxNodes(d) && Seq(d, Leaf) == Before(c) + After(c)
  {
    SeqNodes(c, Leaf);
    SeqNodes(d, Leaf);
    assert Seq(c, Leaf) == Seq(c, Doomed(x, p)) && Seq(d, Leaf) == Seq(d, Doomed(x, p));
  }

  /** Put the focus on the doomed leaf. */
  lemma LocateDoomed(c: Ctx, t: Shape, x: Node, p: Node, h: Store) returns (d: Ctx)
    requires Focus(c, t, h) && Lone(t, x, p) && WholeCtx(c) && Proper(c, t)
    ensures Focus(d, Doomed(x, p), h) && WholeCtx(d) && Proper(d, Leaf) && Parent(d) == p
    ensures Seq(d, Doomed(x, p)) == Seq(c, t) && RootOf(d, x) == RootOf(c, Root(t))
    ensures CtxNodes(d) + {x} == CtxNodes(c) + Nodes(t)
    decreases t
  {
    if t.Doomed? {
      d := c;
    } else {
      var onLeft := Lone(t.l, x, p) && Whole(t.r);
      var e := if onLeft then L(t.n, t.b, t.r, c) else R(t.n, t.b, t.l, c);
      var v := if onLeft then t.l else t.r;
      FocusUp(e, v, h);
      UpIsSame(e, v);
      d := LocateDoomed(e, v, x, p, h);
    }
  }

  /** Everything but the focused node, in order. */
  ghost function Rest(c: Ctx, t: Shape): seq<Node>
    requires t.Fork?
  {
    Before(c) + In(t.l) + In(t.r) + After(c)
  }

  lemma RestNodes(c: Ctx, t: Shape)
    requires t.Fork? && Whole(t) && WholeCtx(c)
    ensures CtxNodes(c) + Nodes(t) == Elems(Rest(c, t)) + {t.n} && |Seq(c, t)| == |Rest(c, t)| + 1
  {
    SeqNodes(c, t);
    assert In(t) == In(t.l) + [t.n] + In(t.r);
  }

  /** The located node is one of the tree's, and what remains is the order without it. */
  lemma RemovalOrder(t0: Shape, c: Ctx, t: Shape, h: Store)
    requires t.Fork? && Focus(c, t, h) && Seq(c, t) == Seq(Top, t0)
    ensures t.n in In(t0) && Without(In(t0), t.n) == Rest(c, t) && Seq(c, t) == In(t0)
  {
    assert Seq(Top, t0) == In(t0);
    FocusIndex(c, t, h);
    SplitAround(Seq(c, t), Before(c) + In(t.l), t.n, In(t.r) + After(c));
    RestHalves(c, t);
  }

  lemma RestHalves(c: Ctx, t: Shape)
    requires t.Fork?
    ensures Rest(c, t) == (Before(c) + In(t.l)) + (In(t.r) + After(c))
  {
  }

  /** A node with one child is black and the child is a red leaf; the links say which case it is. */
  lemma OnlyChild(c: Ctx, t: Shape, h: Store)
    requires Focus(c, t, h) && t.Fork? && (t.l.Leaf? || t.r.Leaf?) && Proper(c, t) && Whole(t)
    ensures t.n in h && h[t.n].left == Root(t.l) && h[t.n].right == Root(t.r)
    ensures t.l.Fork? ==> t.b && !t.l.b && h[t.n].black && Root(t.l) in h && !h[Root(t.l)].black && t.r.Leaf?
    ensures t.r.Fork? ==> t.b && !t.r.b && h[t.n].black && Root(t.r) in h && !h[Root(t.r)].black && t.l.Leaf?
    ensures t.l.Fork? ==> Rest(c, t) == Seq(c, t.l)
    ensures t.r.Fork? ==> Rest(c, t) == Seq(c, t.r)
    ensures t.l.Leaf? && t.r.Leaf? ==> Rest(c, t) == Before(c) + After(c)
  {
    HeightAtLeastOne(t.l);
    HeightAtLeastOne(t.r);
    assert TreeAt(t.l, t.n, h) && TreeAt(t.r, t.n, h);
  }

  lemma HeightAtLeastOne(t: Shape)
    requires Balanced(t)
    ensures BlackHeight(t) >= 1 && (t.Fork? && t.b ==> BlackHeight(t) >= 2)
  {
  }

  /** The only child takes the node's place, in black. */
  lemma LiftedFacts(c: Ctx, t: Shape, u: Shape)
    requires t.Fork? && t.b && u.Fork? && !u.b && Proper(c, t) && Whole(t)
    requires (t.l == u && t.r.Leaf?) || (t.r == u && t.l.Leaf?)
    ensures Proper(c, Painted(u, true)) && Whole(Painted(u, true))
    ensures Seq(c, Painted(u, true)) == Seq(c, u) && |Seq(c, u)| + 1 == |Seq(c, t)|
    ensures Nodes(Painted(u, true)) == Nodes(u) && Nodes(t) == Nodes(u) + {t.n}
  {
    assert In(Painted(u, true)) == In(u);
    assert |In(t)| == |In(u)| + 1;
    HeightAtLeastOne(u);
  }

  /** The sibling of a short subtree exists. */
  lemma SiblingExists(c: Ctx, t: Shape)
    requires Short(c, t) && !c.Top?
    ensures c.side.Fork? && Whole(c.side) && Whole(c.side.l) && Whole(c.side.r) && Balanced(c.side)
    ensures c.side.b ==> BlackHeight(c.side.l) == BlackHeight(c.side.r) == BlackHeight(t)
    ensures !c.side.b ==> c.b && BlackRoot(c.side.l) && BlackRoot(c.side.r) && c.side.l.Fork? && c.side.r.Fork?
  {
  }

  /** The context of the sibling, with the focus as its side tree. */
  ghost function Facing(c: Ctx, t: Shape): Ctx
    requires !c.Top?
  {
    if c.L? then R(c.n, c.b, t, c.up) else L(c.n, c.b, t, c.up)
  }

  lemma FacingFocus(c: Ctx, t: Shape, h: Store)
    requires !c.Top?
    ensures Focus(Facing(c, t), c.side, h) <==> Focus(c, t, h)
  {
    FocusUp(Facing(c, t), c.side, h);
    FocusUp(c, t, h);
  }

  lemma NephewFacts(c: Ctx, t: Shape, h: Store)
    requires Short(c, t) && !c.Top? && c.side.Fork? && c.side.b && Focus(c, t, h)
    ensures c.n in h && c.side.n in h && Root(t) in h
    ensures h[c.side.n].left == Root(c.side.l) && h[c.side.n].right == Root(c.side.r)
    ensures c.side.l.Fork? ==> Root(c.side.l) in h && h[Root(c.side.l)].black == c.side.l.b
    ensures c.side.r.Fork? ==> Root(c.side.r) in h && h[Root(c.side.r)].black == c.side.r.b
    ensures !c.side.l.Doomed? && !c.side.r.Doomed?
    ensures h[Root(t)].parent == c.n && h[c.n].black == c.b
    ensures c.L? <==> h[c.n].left == Root(t)
  {
    SiblingExists(c, t);
    WhichChild(c, t, h);
    assert TreeAt(c.side, c.n, h);
    assert TreeAt(c.side.l, c.side.n, h) && TreeAt(c.side.r, c.side.n, h);
  }

  /** Red sibling: it is rotated above the parent, and its inner child becomes the sibling. */
  ghost function Lowered(c: Ctx): Ctx
    requires !c.Top? && c.side.Fork?
  {
    if c.L? then L(c.n, false, c.side.l, L(c.side.n, true, c.side.r, c.up))
    else R(c.n, false, c.side.r, R(c.side.n, true, c.side.l, c.up))
  }

  lemma LoweredFacts(c: Ctx, t: Shape)
    requires Short(c, t) && !c.Top? && c.side.Fork? && !c.side.b
    ensures Short(Lowered(c), t) && Seq(Lowered(c), t) == Seq(c, t)
    ensures Lowered(c).side.Fork? && Lowered(c).side.b
  {
    SiblingExists(c, t);
    assert In(c.side) == In(c.side.l) + [c.side.n] + In(c.side.r);
    if c.L? {
      assert After(Lowered(c)) == [c.n] + In(c.side.l) + ([c.side.n] + In(c.side.r) + After(c.up));
      assert After(Lowered(c)) == After(c) && Before(Lowered(c)) == Before(c.up) == Before(c);
    } else {
      assert Before(Lowered(c)) == (Before(c.up) + In(c.side.l) + [c.side.n]) + In(c.side.r) + [c.n];
      assert Before(Lowered(c)) == Before(c) && After(Lowered(c)) == After(c.up) == After(c);
    }
  }

  ghost function CloseNephew(c: Ctx): Shape
    requires !c.Top? && c.side.Fork?
  {
    if c.L? then c.side.l else c.side.r
  }

  ghost function DistantNephew(c: Ctx): Shape
    requires !c.Top? && c.side.Fork?
  {
    if c.L? then c.side.r else c.side.l
  }

  ghost predicate RedNephew(c: Ctx)
    requires !c.Top? && c.side.Fork?
  {
    !BlackRoot(DistantNephew(c)) || !BlackRoot(CloseNephew(c))
  }

  /** Close nephew red, distant black: the close nephew is rotated above the sibling. */
  ghost function Outward(c: Ctx): (d: Ctx)
    requires !c.Top? && c.side.Fork?
    ensures !d.Top? && d.side.Fork? && d.up == c.up && d.n == c.n && d.b == c.b && (d.L? <==> c.L?)
  {
    if !BlackRoot(DistantNephew(c)) || BlackRoot(CloseNephew(c)) then c
    else if c.L? then
      var r := RotR(c.side);
      L(c.n, c.b, Fork(r.l, r.n, true, Painted(r.r, false)), c.up)
    else
      var r := RotL(c.side);
      R(c.n, c.b, Fork(Painted(r.l, false), r.n, true, r.r), c.up)
  }

  lemma OutwardFacts(c: Ctx, t: Shape)
    requires Short(c, t) && !c.Top? && c.side.Fork? && c.side.b && RedNephew(c)
    ensures Short(Outward(c), t) && Seq(Outward(c), t) == Seq(c, t)
    ensures Outward(c).side.b && !BlackRoot(DistantNephew(Outward(c)))
  {
    SiblingExists(c, t);
    if BlackRoot(DistantNephew(c)) {
      if c.L? {
        RotRFacts(c.side);
        var o := Outward(c).side;
        assert In(o.r) == In(RotR(c.side).r);
        assert Whole(o.l) && Whole(RotR(c.side).r) && Whole(o.r.l) && Whole(o.r.r);
        assert Whole(o.r) && Whole(o);
        assert Balanced(o.l) && Balanced(o.r.l) && Balanced(o.r.r) && Balanced(o.r) && Balanced(o);
      } else {
        RotLFacts(c.side);
        var o := Outward(c).side;
        assert In(o.l) == In(RotL(c.side).l);
        assert Whole(o.r) && Whole(RotL(c.side).l) && Whole(o.l.l) && Whole(o.l.r);
        assert Whole(o.l) && Whole(o);
        assert Balanced(o.r) && Balanced(o.l.l) && Balanced(o.l.r) && Balanced(o.l) && Balanced(o);
      }
    }
  }

  /** Distant nephew red: the sibling is rotated above the parent, taking the parent's colour. */
  ghost function Raise(c: Ctx, t: Shape): (r: Shape)
    requires !c.Top? && c.side.Fork? && DistantNephew(c).Fork?
    ensures r.Fork?
  {
    if c.L? then Fork(Fork(t, c.n, true, c.side.l), c.side.n, c.b, Painted(c.side.r, true))
    else Fork(Painted(c.side.l, true), c.side.n, c.b, Fork(c.side.r, c.n, true, t))
  }

  lemma RaiseFacts(c: Ctx, t: Shape, x: Node, p: Node)
    requires Short(c, t) && !c.Top? && c.side.Fork? && c.side.b && !BlackRoot(DistantNephew(c))
    ensures Proper(c.up, Raise(c, t)) && Seq(c.up, Raise(c, t)) == Seq(c, t)
    ensures WholeCtx(c.up) && (Lone(t, x, p) ==> Lone(Raise(c, t), x, p))
  {
    SiblingExists(c, t);
    SeqUp(c, t);
    if c.L? {
      RotLFacts(Close(c, t));
      assert In(Painted(c.side.r, true)) == In(c.side.r);
      assert In(Fork(t, c.n, true, c.side.l)) == In(Fork(t, c.n, c.b, c.side.l));
      assert Lone(t, x, p) ==> Lone(Fork(t, c.n, true, c.side.l), x, p) && Whole(Painted(c.side.r, true));
    } else {
      RotRFacts(Close(c, t));
      assert In(Painted(c.side.l, true)) == In(c.side.l);
      assert In(Fork(c.side.r, c.n, true, t)) == In(Fork(c.side.r, c.n, c.b, t));
      assert Lone(t, x, p) ==> Lone(Fork(c.side.r, c.n, true, t), x, p) && Whole(Painted(c.side.l, true));
    }
  }

  ghost function Restored(c: Ctx, t: Shape): Shape
    requires !c.Top? && c.side.Fork? && DistantNephew(Outward(c)).Fork?
  {
    Raise(Outward(c), t)
  }

  lemma RestoredFacts(c: Ctx, t: Shape, x: Node, p: Node)
    requires Short(c, t) && !c.Top? && c.side.Fork? && c.side.b && RedNephew(c) && Lone(t, x, p)
    ensures DistantNephew(Outward(c)).Fork?
    ensures Proper(c.up, Restored(c, t)) && Seq(c.up, Restored(c, t)) == Seq(c, t)
    ensures WholeCtx(c.up) && Lone(Restored(c, t), x, p)
  {
    OutwardFacts(c, t);
    RaiseFacts(Outward(c), t, x, p);
  }

  /** No red nephew: the sibling turns red and the parent black. */
  ghost function Levelled(c: Ctx, t: Shape): Shape
    requires !c.Top? && c.side.Fork?
  {
    Close(c.(b := true, side := Painted(c.side, false)), t)
  }

  lemma LevelledFacts(c: Ctx, t: Shape, x: Node, p: Node)
    requires Short(c, t) && !c.Top? && c.side.Fork? && c.side.b && !RedNephew(c)
    ensures c.b ==> Short(c.up, Levelled(c, t))
    ensures !c.b ==> Proper(c.up, Levelled(c, t))
    ensures Seq(c.up, Levelled(c, t)) == Seq(c, t)
    ensures WholeCtx(c.up) && (Lone(t, x, p) ==> Lone(Levelled(c, t), x, p))
  {
    SiblingExists(c, t);
    SeqUp(c, t);
    assert In(Painted(c.side, false)) == In(c.side);
  }

  // ---- replacing and checking -----------------------------------------------------------------

  lemma SortedFork(t: Shape)
    requires t.Fork? && Sorted(In(t))
    ensures Sorted(In(t.l)) && Sorted(In(t.r)) && Below(In(t.l), t.n.key) && Above(In(t.r), t.n.key)
  {
    var q := In(t);
    assert q[|In(t.l)|] == t.n;
    assert forall i :: 0 <= i < |In(t.l)| ==> In(t.l)[i] == q[i];
    assert forall i :: 0 <= i < |In(t.r)| ==> In(t.r)[i] == q[|In(t.l)| + 1 + i];
  }

  lemma SortedMiddle(a: seq<Node>, b: seq<Node>, c: seq<Node>)
    requires Sorted(a + b + c)
    ensures Sorted(b)
  {
    assert forall i :: 0 <= i < |b| ==> b[i] == (a + b + c)[|a| + i];
  }

  lemma RootInOrder(t: Shape)
    requires t.Fork?
    ensures t.n in In(t)
  {
  }

  /** A subtree of a sorted tree has its direct children on the right sides of its root. */
  lemma ChildrenOrdered(t: Shape)
    requires t.Fork? && Sorted(In(t))
    ensures t.l.Fork? ==> t.l.n.key < t.n.key
    ensures t.r.Fork? ==> t.n.key < t.r.n.key
  {
    SortedFork(t);
    if t.l.Fork? { RootInOrder(t.l); }
    if t.r.Fork? { RootInOrder(t.r); }
  }

  lemma ReplacedFacts(c: Ctx, t: Shape, y: Node)
    requires t.Fork? && Proper(c, t) && Whole(t)
    ensures var u := Fork(t.l, y, t.b, t.r);
      Proper(c, u) && Whole(u) && Nodes(u) + {t.n} == Nodes(t) + {y} && |Seq(c, u)| == |Seq(c, t)|
  {
    assert Whole(t.l) && Whole(t.r);
    assert |In(Fork(t.l, y, t.b, t.r))| == |In(t)|;
  }

  lemma ReplacedOrder(c: Ctx, t: Shape, y: Node, h: Store)
    requires t.Fork? && Focus(c, t, h)
    ensures t.n in Seq(c, t) && Seq(c, Fork(t.l, y, t.b, t.r)) == Seq(c, t)[Index(Seq(c, t), t.n) := y]
  {
    FocusIndex(c, t, h);
    SwapOne(Seq(c, t), Before(c) + In(t.l), t.n, y, In(t.r) + After(c));
    assert In(Fork(t.l, y, t.b, t.r)) == In(t.l) + [y] + In(t.r);
  }

  /** The new node takes over the links and colour of the old one; its children and keys agree. */
  method Supplant(oldNode: Node, newNode: Node)
    requires newNode != oldNode && oldNode.left !in {oldNode, newNode} && oldNode.right !in {oldNode, newNode}
    requires oldNode.left != null ==> oldNode.left != oldNode.right && oldNode.left.key < newNode.key
    requires oldNode.right != null ==> newNode.key < oldNode.right.key
    requires oldNode.parent != null ==> oldNode.parent !in {oldNode, newNode, oldNode.left, oldNode.right}
    requires oldNode.parent != null && oldNode.parent.left == newNode ==> newNode.key < oldNode.parent.key
    requires oldNode.parent != null && oldNode.parent.left != newNode ==> oldNode.parent.key < newNode.key
    modifies newNode, oldNode.left, oldNode.right
    ensures Is(newNode, oldNode.parent, oldNode.black, oldNode.left, oldNode.right)
    ensures oldNode.left != null ==>
      Is(oldNode.left, newNode, old(oldNode.left.black), old(oldNode.left.left), old(oldNode.left.right))
    ensures oldNode.right != null ==>
      Is(oldNode.right, newNode, old(oldNode.right.black), old(oldNode.right.left), old(oldNode.right.right))
  {
    newNode.parent := oldNode.parent;
    newNode.black := oldNode.black;
    if newNode.IsLeftChild() {
      assert newNode.key < newNode.parent.key;
    } else if newNode.IsRightChild() {
      assert newNode.parent.key < newNode.key;
    }
    newNode.left := oldNode.left;
    newNode.right := oldNode.right;
    if newNode.left != null {
      assert newNode.left.key < newNode.key;
      newNode.left.parent := newNode;
    }
    if newNode.right != null {
      assert newNode.key < newNode.right.key;
      newNode.right.parent := newNode;
    }
  }

  ghost predicate Replaced(c: Ctx, t: Shape, y: Node, h: Store, k: Store)
    requires t.Fork?
  {
    && y in k && k[y] == Cell(Parent(c), t.b, Root(t.l), Root(t.r))
    && (t.l.Fork? ==> t.l.n in h && t.l.n in k && k[t.l.n] == h[t.l.n].(parent := y))
    && (t.r.Fork? ==> t.r.n in h && t.r.n in k && k[t.r.n] == h[t.r.n].(parent := y))
    && Relinked(c, y, h, k)
    && (forall m | m in h && m !in {t.n, y} && m != Root(t.l) && m != Root(t.r) && m != Parent(c) ::
          m in k && k[m] == h[m])
  }

  lemma ReplacedFocus(c: Ctx, t: Shape, y: Node, h: Store, k: Store)
    requires t.Fork? && Focus(c, t, h) && !t.l.Doomed? && !t.r.Doomed? && y !in CtxNodes(c) + Nodes(t)
    requires Replaced(c, t, y, h, k)
    ensures Focus(c, Fork(t.l, y, t.b, t.r), k)
  {
    MovedSubtree(t.l, t.n, y, h, k);
    MovedSubtree(t.r, t.n, y, h, k);
    MovedHole(c, t.n, y, h, k);
  }

  lemma ReplaceIsSafe(c: Ctx, t: Shape, h: Store)
    requires t.Fork? && Focus(c, t, h) && Whole(t)
    ensures t.n in h && h[t.n] == Cell(Parent(c), t.b, Root(t.l), Root(t.r))
    ensures t.l.Fork? ==> t.l.n in h && t.l.n != t.n && t.l.n != Parent(c) && t.l.n != Root(t.r)
    ensures t.r.Fork? ==> t.r.n in h && t.r.n != t.n && t.r.n != Parent(c)
    ensures !c.Top? ==> c.n in h && c.n != t.n
    ensures c.R? ==> h[c.n].left != t.n && h[c.n].left == Root(c.side) && (c.side.Leaf? || h[c.n].left in CtxNodes(c))
    ensures !t.l.Doomed? && !t.r.Doomed?
  {
    assert TreeAt(t.l, t.n, h) && TreeAt(t.r, t.n, h);
  }

  /** A new key between the neighbouring keys. */
  ghost predicate KeysFit(c: Ctx, t: Shape, y: Node)
    requires t.Fork?
  {
    && (t.l.Fork? ==> t.l.n.key < y.key)
    && (t.r.Fork? ==> y.key < t.r.n.key)
    && (!c.Top? ==> if c.L? then y.key < c.n.key else c.n.key < y.key)
  }

  lemma SortedKeysFit(c: Ctx, t: Shape, y: Node)
    requires t.Fork? && Sorted(Seq(c, Fork(t.l, y, t.b, t.r)))
    ensures KeysFit(c, t, y)
  {
    var u := Fork(t.l, y, t.b, t.r);
    SortedMiddle(Before(c), In(u), After(c));
    ChildrenOrdered(u);
    if !c.Top? {
      SeqUp(c, u);
      SortedMiddle(Before(c.up), In(Close(c, u)), After(c.up));
      ChildrenOrdered(Close(c, u));
    }
  }

  /** The tree's recursive check of links, colours, keys and black heights. */
  method VerifyNode(node: Node?, ghost t: Shape, ghost p: Node?, ghost s: set<Node>)
    returns (count: nat, blackHeight: nat)
    requires TreeAt(t, p, Fields(s)) && Root(t) == node && Whole(t) && Balanced(t) && Sorted(In(t))
    ensures count == |In(t)| && blackHeight == BlackHeight(t)
    decreases t
  {
    if node == null {
      return 0, 1;
    }
    ChildrenOrdered(t);
    SortedFork(t);
    assert TreeAt(t.l, node, Fields(s)) && TreeAt(t.r, node, Fields(s));
    assert node.left == null || node.left.parent == node;
    assert node.right == null || node.right.parent == node;
    if !node.black {
      assert IsBlack(node.left);
      assert IsBlack(node.right);
    }
    if node.left != null {
      assert node.left.key < node.key;
    }
    if node.right != null {
      assert node.key < node.right.key;
    }
    var leftCount, leftBlack := VerifyNode(node.left, t.l, node, s);
    var rightCount, rightBlack := VerifyNode(node.right, t.r, node, s);
    assert leftBlack == rightBlack;
    count := 1 + leftCount + rightCount;
    blackHeight := leftBlack + if node.black then 1 else 0;
  }

  // ---- stepping -------------------------------------------------------------------------------

  /** The first node of a right subtree is what follows the node. */
  lemma FirstOfRight(c: Ctx, t: Shape, e: Ctx, v: Shape)
    requires t.Fork? && v.Fork? && v.l.Leaf?
    requires Spine(e, R(t.n, t.b, t.l, c)) && Unwound(e, R(t.n, t.b, t.l, c), v) == t.r
    ensures |In(t.r) + After(c)| > 0 && (In(t.r) + After(c))[0] == v.n
  {
    UnwoundOrder(e, R(t.n, t.b, t.l, c), v);
    assert In(v) == [v.n] + In(v.r);
  }

  /** The node that follows in order, or null for the last one. */
  method Next(start: Node, ghost tree: Tree) returns (r: Node?)
    requires tree.Valid() && start in tree.nodes
    ensures start in tree.Order()
    ensures var q, i := tree.Order(), Index(tree.Order(), start); r == if i + 1 < |q| then q[i + 1] else null
  {
    ghost var s := tree.nodes;
    ghost var c, t := tree.NodeFocus(start);
    FocusIndex(c, t, Fields(s));
    ghost var rest := In(t.r) + After(c);
    if start.right != null {
      var curr, e, v := Successor(start, c, t, s);
      FirstOfRight(c, t, e, v);
      return curr;
    }
    var node := start;
    assert rest == After(c);
    WhichSide(c, t, Fields(s));
    while node.IsRightChild()
      invariant Focus(c, t, Fields(s)) && t.Fork? && t.n == node && After(c) == rest
      invariant node.parent == Parent(c) && (node.IsRightChild() <==> c.R?)
      decreases c
    {
      FocusUp(c, t, Fields(s));
      c, t := c.up, Close(c, t);
      node := node.parent;
      WhichSide(c, t, Fields(s));
    }
    return node.parent;
  }

  /** The node that precedes in order, or null for the first one. */
  method Prev(start: Node, ghost tree: Tree) returns (r: Node?)
    requires tree.Valid() && start in tree.nodes
    ensures start in tree.Order()
    ensures var q, i := tree.Order(), Index(tree.Order(), start); r == if i > 0 then q[i - 1] else null
  {
    ghost var s := tree.nodes;
    ghost var c, t := tree.NodeFocus(start);
    FocusIndex(c, t, Fields(s));
    ghost var front := Before(c) + In(t.l);
    if start.left != null {
      r := LastOfLeft(start, c, t, s);
      return;
    }
    var node := start;
    assert front == Before(c);
    WhichSide(c, t, Fields(s));
    while node.IsLeftChild()
      invariant Focus(c, t, Fields(s)) && t.Fork? && t.n == node && Before(c) == front
      invariant node.parent == Parent(c) && (node.IsLeftChild() <==> c.L?)
      decreases c
    {
      FocusUp(c, t, Fields(s));
      c, t := c.up, Close(c, t);
      node := node.parent;
      WhichSide(c, t, Fields(s));
    }
    return node.parent;
  }

  lemma RightStep(e: Ctx, v: Shape)
    requires v.Fork?
    ensures Before(R(v.n, v.b, v.l, e)) + In(v.r) == Before(e) + In(v)
  {
  }

  method LastOfLeft(node: Node, ghost c: Ctx, ghost t: Shape, ghost s: set<Node>) returns (r: Node)
    requires Focus(c, t, Fields(s)) && t.Fork? && t.n == node && t.l.Fork? && Whole(t)
    ensures |Before(c) + In(t.l)| > 0 && r == (Before(c) + In(t.l))[|Before(c) + In(t.l)| - 1]
  {
    ghost var e, v := L(t.n, t.b, t.r, c), t.l;
    FocusUp(e, v, Fields(s));
    assert TreeAt(v, node, Fields(s));
    r := node.left;
    while r.right != null
      invariant Focus(e, v, Fields(s)) && v.Fork? && v.n == r && Whole(v)
      invariant Before(e) + In(v) == Before(c) + In(t.l)
      decreases v
    {
      r := r.right;
      RightStep(e, v);
      e, v := R(v.n, v.b, v.l, e), v.r;
      FocusUp(e, v, Fields(s));
    }
    assert Before(e) + In(v) == (Before(e) + In(v.l)) + [v.n];
  }

  lemma WhichSide(c: Ctx, t: Shape, h: Store)
    requires t.Fork? && Focus(c, t, h)
    ensures t.n in h && h[t.n].parent == Parent(c)
    ensures !c.Top? ==> c.n in h && (c.L? <==> h[c.n].left == t.n) && (c.R? <==> h[c.n].right == t.n)
  {
    if !c.Top? { WhichChild(c, t, h); }
  }

  // ---- height ---------------------------------------------------------------------------------

  ghost function Height(t: Shape): nat {
    if t.Fork? then 1 + if Height(t.l) > Height(t.r) then Height(t.l) else Height(t.r) else 0
  }

  lemma {:induction false} BlackHeightBounds(t: Shape)
    requires Balanced(t)
    ensures BlackHeight(t) >= 1 && Words.Pow2(BlackHeight(t) - 1) <= |In(t)| + 1
    ensures Height(t) <= 2 * (BlackHeight(t) - 1) + if BlackRoot(t) then 0 else 1
  {
    if t.Fork? {
      BlackHeightBounds(t.l);
      BlackHeightBounds(t.r);
    }
  }

  /** The height is at most twice the logarithm of the number of nodes plus one. */
  lemma HeightIsLogarithmic(t: Shape)
    requires Balanced(t)
    ensures Words.Pow2(Height(t) / 2) <= |In(t)| + 1
  {
    BlackHeightBounds(t);
    Words.Pow2Monotone(Height(t) / 2, BlackHeight(t) - 1);
  }
}
