/** Published package snapshots (PackageInfoSnapshot and its builder in runtime/src/CompilerCalls.cpp).
    Handles and loader packages are numbers, 0 is null. Only names, related packages and sub-packages
    are modelled. */
module PackageSnapshots {

  import opened Common

  type Handle = nat

  type Source = nat

  datatype Snapshot = Snapshot(name: string, related: Handle, subs: seq<Handle>)

  type Snapshots = map<Handle, Snapshot>

  /** `a` is a proper prefix of `d` that ends at a dot of `d`. */
  predicate StrictAncestor(a: string, d: string) {
    |d| > |a| && d[..|a|] == a && d[|a|] == '.'
  }

  /** An ancestor's name, a dot and anything. */
  lemma AncestorIff(a: string, d: string)
    ensures StrictAncestor(a, d) <==> exists rest: string {:trigger a + "." + rest} :: d == a + "." + rest
  {
    if StrictAncestor(a, d) {
      assert d == a + "." + d[|a| + 1..];
    }
  }

  lemma AncestorsAreOrdered(a: string, b: string, c: string)
    ensures !StrictAncestor(a, a)
    ensures StrictAncestor(a, b) && StrictAncestor(b, c) ==> StrictAncestor(a, c)
  {
    if StrictAncestor(a, b) && StrictAncestor(b, c) {
      assert c[..|a|] == c[..|b|][..|a|];
      assert c[|a|] == c[..|b|][|a|];
    }
  }

  // ---- reconciliation --------------------------------------------------------------------------

  /** The sub-package list of `a` has a published handle of that name. */
  ghost predicate Lists(m: Snapshots, a: Handle, name: string)
    requires a in m
  {
    exists i | 0 <= i < |m[a].subs| :: m[a].subs[i] in m && m[m[a].subs[i]].name == name
  }

  ghost predicate PairOk(m: Snapshots, a: Handle, d: Handle)
    requires a in m && d in m
  {
    StrictAncestor(m[a].name, m[d].name) ==> Lists(m, a, m[d].name)
  }

  /** Every ancestor lists every descendant's name. */
  ghost predicate Reconciled(m: Snapshots) {
    forall a <- m, d <- m :: PairOk(m, a, d)
  }

  /** The same snapshots with the same names; what their lists have gained are published descendants. */
  ghost predicate Longer(m: Snapshots, n: Snapshots) {
    m.Keys == n.Keys && forall h <- m :: Kept(m[h], n[h]) && Gained(m, m[h], n[h])
  }

  ghost predicate Gained(m: Snapshots, was: Snapshot, now: Snapshot) {
    forall i | |was.subs| <= i < |now.subs| :: now.subs[i] in m && StrictAncestor(was.name, m[now.subs[i]].name)
  }

  lemma LongerTrans(a: Snapshots, b: Snapshots, c: Snapshots)
    requires Longer(a, b) && Longer(b, c)
    ensures Longer(a, c)
  {
    forall h | h in a ensures Kept(a[h], c[h]) && Gained(a, a[h], c[h]) {
      assert Kept(a[h], b[h]) && Kept(b[h], c[h]);
      assert Gained(a, a[h], b[h]) && Gained(b, b[h], c[h]);
    }
  }

  lemma ListsKept(m: Snapshots, n: Snapshots, a: Handle, name: string)
    requires Longer(m, n) && a in m && Lists(m, a, name)
    ensures Lists(n, a, name)
  {
    var i :| 0 <= i < |m[a].subs| && m[a].subs[i] in m && m[m[a].subs[i]].name == name;
    assert n[a].subs[i] == m[a].subs[i];
  }

  lemma PairKept(m: Snapshots, n: Snapshots, a: Handle, d: Handle)
    requires Longer(m, n) && a in m && d in m && PairOk(m, a, d)
    ensures PairOk(n, a, d)
  {
    if StrictAncestor(m[a].name, m[d].name) {
      ListsKept(m, n, a, m[d].name);
    }
  }

  /** Append the descendant unless it is unknown or the list has its name already. */
  method AppendDescendant(m: Snapshots, ancestor: Handle, descendant: Handle) returns (n: Snapshots)
    requires ancestor in m
    ensures n == if descendant in m && !Lists(m, ancestor, m[descendant].name)
      then m[ancestor := m[ancestor].(subs := m[ancestor].subs + [descendant])] else m
  {
    if descendant !in m {
      return m;
    }
    var name := m[descendant].name;
    var subs := m[ancestor].subs;
    for i := 0 to |subs|
      invariant forall j | 0 <= j < i :: !(subs[j] in m && m[subs[j]].name == name)
    {
      if subs[i] in m && m[subs[i]].name == name {
        return m;
      }
    }
    n := m[ancestor := m[ancestor].(subs := subs + [descendant])];
  }

  /** Appending a descendant reconciles the pair. */
  lemma AppendedPair(m: Snapshots, n: Snapshots, a: Handle, d: Handle)
    requires a in m && d in m && StrictAncestor(m[a].name, m[d].name)
    requires n == if !Lists(m, a, m[d].name) then m[a := m[a].(subs := m[a].subs + [d])] else m
    ensures Longer(m, n) && PairOk(n, a, d)
  {
    if !Lists(m, a, m[d].name) {
      assert n[a].subs[|m[a].subs|] == d;
    }
  }

  /** Compare one published snapshot with every other, in any order. */
  method ReconcileOne(m: Snapshots, p: Handle) returns (n: Snapshots)
    requires p in m
    ensures Longer(m, n) && forall e <- n :: PairOk(n, e, p) && PairOk(n, p, e)
  {
    n := m;
    var todo := m.Keys;
    while todo != {}
      invariant todo <= m.Keys && Longer(m, n)
      invariant forall e <- n :: e !in todo ==> PairOk(n, e, p) && PairOk(n, p, e)
    {
      var e :| e in todo;
      ghost var before := n;
      if e != p {
        n := ReconcilePair(n, e, p);
      } else {
        AncestorsAreOrdered(n[p].name, n[p].name, n[p].name);
      }
      LongerTrans(m, before, n);
      KeptAll(before, n, p, todo);
      todo := todo - {e};
    }
  }

  method ReconcilePair(m: Snapshots, e: Handle, p: Handle) returns (n: Snapshots)
    requires e in m && p in m
    ensures Longer(m, n) && PairOk(n, e, p) && PairOk(n, p, e)
  {
    n := m;
    if StrictAncestor(n[e].name, n[p].name) {
      n := AppendDescendant(n, e, p);
      AppendedPair(m, n, e, p);
    }
    ghost var between := n;
    if StrictAncestor(n[p].name, n[e].name) {
      n := AppendDescendant(n, p, e);
      AppendedPair(between, n, p, e);
    }
    LongerTrans(m, between, n);
    PairKept(between, n, e, p);
  }

  lemma KeptAll(m: Snapshots, n: Snapshots, p: Handle, todo: set<Handle>)
    requires Longer(m, n) && p in m && forall e <- m :: e !in todo ==> PairOk(m, e, p) && PairOk(m, p, e)
    ensures forall e <- n :: e !in todo ==> PairOk(n, e, p) && PairOk(n, p, e)
  {
    forall e | e in n && e !in todo ensures PairOk(n, e, p) && PairOk(n, p, e) {
      PairKept(m, n, e, p);
      PairKept(m, n, p, e);
    }
  }

  /** After publishing, all snapshots are reconciled, if those published before were. */
  method Reconcile(m: Snapshots, published: seq<Handle>) returns (n: Snapshots)
    requires forall a <- m, d <- m :: a !in published && d !in published ==> PairOk(m, a, d)
    ensures Longer(m, n) && Reconciled(n)
  {
    n := m;
    for i := 0 to |published|
      invariant Longer(m, n)
      invariant forall a <- n, d <- n :: a !in published[i..] && d !in published[i..] ==> PairOk(n, a, d)
    {
      ghost var before := n;
      if published[i] in n {
        n := ReconcileOne(n, published[i]);
      }
      LongerTrans(m, before, n);
      forall a, d | a in n && d in n && a !in published[i + 1..] && d !in published[i + 1..] ensures PairOk(n, a, d) {
        if a != published[i] && d != published[i] {
          assert a !in published[i..] && d !in published[i..];
          PairKept(before, n, a, d);
        }
      }
    }
  }

  // ---- building --------------------------------------------------------------------------------

  /** A package as the loader knows it. */
  datatype Package = Package(name: string, related: Source, subs: seq<Source>)

  type Graph = map<Source, Package>

  ghost predicate Closed(g: Graph) {
    0 !in g && forall s <- g :: (g[s].related == 0 || g[s].related in g) && forall x <- g[s].subs :: x == 0 || x in g
  }

  /** The handle of a source, null for null. */
  function HandleOf(handles: map<Source, Handle>, s: Source): Handle {
    if s in handles then handles[s] else 0
  }

  ghost predicate Known(handles: map<Source, Handle>, s: Source) {
    s == 0 || s in handles
  }

  /** `snap` is package `p` with every package replaced by its snapshot. */
  ghost predicate Copies(handles: map<Source, Handle>, p: Package, snap: Snapshot) {
    && snap.name == p.name && Known(handles, p.related) && snap.related == HandleOf(handles, p.related)
    && |snap.subs| == |p.subs|
    && forall i | 0 <= i < |p.subs| :: Known(handles, p.subs[i]) && snap.subs[i] == HandleOf(handles, p.subs[i])
  }

  ghost predicate Extends(h: map<Source, Handle>, k: map<Source, Handle>) {
    0 !in k && forall s <- h :: s in k && k[s] == h[s]
  }

  lemma CopiesKept(h: map<Source, Handle>, k: map<Source, Handle>, p: Package, snap: Snapshot)
    requires Copies(h, p, snap) && Extends(h, k)
    ensures Copies(k, p, snap)
  {
  }

  /** Builder state: the memo table, the snapshots made so far, and which sources are finished. */
  datatype State = State(handles: map<Source, Handle>, pending: Snapshots, finished: set<Source>, base: Handle,
    next: Handle)

  ghost predicate Valid(g: Graph, v: State) {
    && 0 !in v.handles && v.handles.Keys <= g.Keys && v.finished <= v.handles.Keys
    && (forall s <- v.handles :: v.handles[s] in v.pending && 0 < v.handles[s] < v.next)
    && (forall s <- v.handles, t <- v.handles :: v.handles[s] == v.handles[t] ==> s == t)
    && (forall h <- v.pending :: v.base <= h < v.next) && v.base <= v.next
    && (forall s <- v.finished :: Copies(v.handles, g[s], v.pending[v.handles[s]]))
  }

  /** From `v` to `w` the memo table only grew, whatever is new is finished, and what was there is
      untouched. */
  ghost predicate Grown(v: State, w: State) {
    && Extends(v.handles, w.handles) && v.next <= w.next
    && (forall s <- w.handles :: s !in w.finished <==> s in v.handles && s !in v.finished)
    && (forall h <- v.pending :: h in w.pending && w.pending[h] == v.pending[h])
  }

  // ---- one package -----------------------------------------------------------------------------

  /** `source` has been given its handle, and its snapshot is being filled in. */
  ghost predicate Starts(v: State, w: State, source: Source, snap: Snapshot) {
    source !in v.handles && source != 0 &&
    w == v.(handles := v.handles[source := v.next], pending := v.pending[v.next := snap], next := v.next + 1)
  }

  lemma Start(g: Graph, v: State, w: State, source: Source, snap: Snapshot)
    requires Valid(g, v) && Starts(v, w, source, snap) && source in g && v.next > 0
    ensures Valid(g, w)
  {
    forall s | s in w.finished ensures Copies(w.handles, g[s], w.pending[w.handles[s]]) {
      CopiesKept(v.handles, w.handles, g[s], v.pending[v.handles[s]]);
    }
  }

  /** Changing the snapshot of a source that is not finished. */
  lemma Fill(g: Graph, v: State, w: State, source: Source, snap: Snapshot)
    requires Valid(g, v) && source in v.handles && source !in v.finished
    requires w == v.(pending := v.pending[v.handles[source] := snap])
    ensures Valid(g, w)
  {
  }

  /** While `source` is being filled in, everything else only grows. */
  ghost predicate Filling(v: State, w: State, source: Source) {
    && source in v.handles && Extends(v.handles, w.handles) && v.next <= w.next
    && (forall s <- w.handles :: s !in w.finished <==> s in v.handles && s !in v.finished)
    && (forall h <- v.pending :: h != v.handles[source] ==> h in w.pending && w.pending[h] == v.pending[h])
  }

  lemma FinishValid(g: Graph, w: State, x: State, source: Source)
    requires Valid(g, w) && source in w.handles && x == w.(finished := w.finished + {source})
    requires Copies(w.handles, g[source], w.pending[w.handles[source]])
    ensures Valid(g, x)
  {
  }

  lemma FinishGrown(v: State, u: State, w: State, x: State, source: Source, snap: Snapshot)
    requires Starts(v, u, source, snap) && Filling(u, w, source) && (forall h <- v.pending :: h < v.next)
    requires x == w.(finished := w.finished + {source})
    ensures Grown(v, x)
  {
  }

  class Builder {
    const graph: Graph
    var handles: map<Source, Handle>
    var pending: Snapshots
    const base: Handle
    var next: Handle

    ghost var finished: set<Source>

    ghost function Now(): State
      reads this
    {
      State(handles, pending, finished, base, next)
    }

    constructor (graph: Graph, next: Handle)
      requires next > 0
      ensures this.graph == graph && Now() == State(map[], map[], {}, next, next) && Valid(graph, Now())
    {
      this.graph := graph;
      base := next;
      handles, pending, finished, this.next := map[], map[], {}, next;
    }

    /** The snapshot of a package, made once: cycles end at the memo table. */
    method BuildOne(source: Source) returns (h: Handle)
      requires Closed(graph) && Valid(graph, Now()) && next > 0 && (source == 0 || source in graph)
      modifies this
      ensures Valid(graph, Now()) && Grown(old(Now()), Now()) && next > 0
      ensures Known(handles, source) && h == HandleOf(handles, source)
      decreases |graph.Keys - handles.Keys|, 1
    {
      if source == 0 {
        return 0;
      }
      if source in handles {
        return handles[source];
      }
      h := Begin(source);
      ghost var u := Now();
      FillIn(source);
      ghost var w := Now();
      finished := finished + {source};
      FinishValid(graph, w, Now(), source);
      FinishGrown(old(Now()), u, w, Now(), source, u.pending[h]);
    }

    method Begin(source: Source) returns (h: Handle)
      requires Valid(graph, Now()) && next > 0 && source in graph && source !in handles && source != 0
      modifies this
      ensures Valid(graph, Now()) && Starts(old(Now()), Now(), source, Snapshot(graph[source].name, 0, []))
      ensures h == handles[source] && |graph.Keys - handles.Keys| < |graph.Keys - old(handles.Keys)|
    {
      h := next;
      handles := handles[source := h];
      pending := pending[h := Snapshot(graph[source].name, 0, [])];
      next := next + 1;
      Start(graph, old(Now()), Now(), source, pending[h]);
      assert graph.Keys - handles.Keys == (graph.Keys - old(handles.Keys)) - {source};
    }

    /** Copy the related package and every sub-package. */
    method FillIn(source: Source)
      requires Closed(graph) && Valid(graph, Now()) && next > 0
      requires source in handles && source !in finished
      requires pending[handles[source]] == Snapshot(graph[source].name, 0, [])
      modifies this
      ensures Valid(graph, Now()) && Filling(old(Now()), Now(), source) && next > 0
      ensures Copies(handles, graph[source], pending[handles[source]])
      decreases |graph.Keys - handles.Keys|, 3
    {
      var n := |graph[source].subs|;
      SetRelated(source);
      for i := 0 to n
        invariant Valid(graph, Now()) && next > 0 && Filling(old(Now()), Now(), source)
        invariant source in handles && source !in finished
        invariant Partly(handles, graph[source], pending[handles[source]], i)
      {
        ghost var v := Now();
        FewerLeft(graph, old(Now()), v);
        AddSub(source, i);
        FillingTrans(old(Now()), v, Now(), source);
      }
      assert graph[source].(subs := graph[source].subs[..n]) == graph[source];
    }

    method SetRelated(source: Source)
      requires Closed(graph) && Valid(graph, Now()) && next > 0
      requires source in handles && source !in finished
      requires pending[handles[source]] == Snapshot(graph[source].name, 0, [])
      modifies this
      ensures Valid(graph, Now()) && Filling(old(Now()), Now(), source) && next > 0
      ensures source in handles && source !in finished && Partly(handles, graph[source], pending[handles[source]], 0)
      decreases |graph.Keys - handles.Keys|, 2
    {
      var related := BuildOne(graph[source].related);
      SetSnapshot(source, pending[handles[source]].(related := related));
    }

    method AddSub(source: Source, i: nat)
      requires Closed(graph) && Valid(graph, Now()) && next > 0 && source in handles && source !in finished
      requires i < |graph[source].subs| && Partly(handles, graph[source], pending[handles[source]], i)
      modifies this
      ensures Valid(graph, Now()) && Filling(old(Now()), Now(), source) && next > 0
      ensures source in handles && source !in finished
      ensures Partly(handles, graph[source], pending[handles[source]], i + 1)
      decreases |graph.Keys - handles.Keys|, 2
    {
      ghost var p := graph[source];
      assert p.subs[i] in p.subs;
      var x := BuildOne(graph[source].subs[i]);
      var h := handles[source];
      PartlyKept(old(handles), handles, p, pending[h], i);
      PartlyMore(handles, p, pending[h], i, x);
      SetSnapshot(source, pending[h].(subs := pending[h].subs + [x]));
    }

    method SetSnapshot(source: Source, snap: Snapshot)
      requires Valid(graph, Now()) && source in handles && source !in finished
      modifies this`pending
      ensures Valid(graph, Now()) && pending == old(pending)[handles[source] := snap]
    {
      pending := pending[handles[source] := snap];
      Fill(graph, old(Now()), Now(), source, snap);
    }
  }

  /** The first `n` sub-packages are copied. */
  ghost predicate Partly(handles: map<Source, Handle>, p: Package, snap: Snapshot, n: nat) {
    && n <= |p.subs| && Copies(handles, p.(subs := p.subs[..n]), snap)
  }

  lemma PartlyKept(h: map<Source, Handle>, k: map<Source, Handle>, p: Package, snap: Snapshot, n: nat)
    requires Partly(h, p, snap, n) && Extends(h, k)
    ensures Partly(k, p, snap, n)
  {
    CopiesKept(h, k, p.(subs := p.subs[..n]), snap);
  }

  lemma PartlyMore(h: map<Source, Handle>, p: Package, snap: Snapshot, n: nat, x: Handle)
    requires Partly(h, p, snap, n) && n < |p.subs| && Known(h, p.subs[n]) && x == HandleOf(h, p.subs[n])
    ensures Partly(h, p, snap.(subs := snap.subs + [x]), n + 1)
  {
    assert p.subs[..n + 1] == p.subs[..n] + [p.subs[n]];
  }

  lemma FillingTrans(u: State, v: State, w: State, source: Source)
    requires Filling(u, v, source) && Filling(v, w, source)
    ensures Filling(u, w, source)
  {
  }

  lemma FewerLeft(g: Graph, u: State, v: State)
    requires forall s <- u.handles :: s in v.handles
    ensures |g.Keys - v.handles.Keys| <= |g.Keys - u.handles.Keys|
  {
    SubsetSize(g.Keys - v.handles.Keys, g.Keys - u.handles.Keys);
  }

  // ---- publication -----------------------------------------------------------------------------

  class Registry {
    var snapshots: Snapshots
    var next: Handle

    ghost predicate Valid()
      reads this
    {
      next > 0 && (forall h <- snapshots :: h < next) && Reconciled(snapshots)
    }

    constructor ()
      ensures Valid() && snapshots == map[]
    {
      snapshots, next := map[], 1;
    }

    /** Publish a package with everything it leads to. All snapshots are reconciled afterwards; `handles`
        gives every package's snapshot, whose list begins with the snapshots of its sub-packages. */
    method Build(graph: Graph, source: Source) returns (root: Handle, ghost handles: map<Source, Handle>)
      requires Valid() && Closed(graph) && (source == 0 || source in graph)
      modifies this
      ensures Valid() && Known(handles, source) && root == HandleOf(handles, source) && (root == 0 <==> source == 0)
      ensures forall h <- old(snapshots) :: h in snapshots && Kept(old(snapshots)[h], snapshots[h])
      ensures forall h <- old(snapshots) :: Gained(snapshots, old(snapshots)[h], snapshots[h])
      ensures forall s <- handles :: s in graph && handles[s] in snapshots && Published(graph, handles, snapshots, s)
    {
      var builder := new Builder(graph, next);
      root := builder.BuildOne(source);
      if root == 0 {
        return root, map[];
      }
      handles := builder.handles;
      Publish(builder.pending, builder.next);
      forall s | s in handles ensures s in graph && handles[s] in snapshots && Published(graph, handles, snapshots, s) {
        CopyIsPublished(graph, handles, s, builder.pending[handles[s]], snapshots);
      }
    }

    /** Add the pending snapshots and reconcile. */
    method Publish(pending: Snapshots, nextHandle: Handle)
      requires Valid() && next <= nextHandle && forall h <- pending :: next <= h < nextHandle
      modifies this
      ensures Valid() && Longer(old(snapshots) + pending, snapshots)
    {
      next := nextHandle;
      var published := Order(pending);
      ghost var before := snapshots + pending;
      snapshots := snapshots + pending;
      forall a, d | a in before && d in before && a !in published && d !in published ensures PairOk(before, a, d) {
        StillListed(old(snapshots), before, a, d);
      }
      snapshots := Reconcile(snapshots, published);
    }
  }

  /** The same snapshot, its list perhaps longer. */
  ghost predicate Kept(was: Snapshot, now: Snapshot) {
    now.name == was.name && now.related == was.related && was.subs <= now.subs
  }

  lemma CopyIsPublished(g: Graph, handles: map<Source, Handle>, s: Source, snap: Snapshot, m: Snapshots)
    requires s in g && s in handles && handles[s] in m && Copies(handles, g[s], snap) && Kept(snap, m[handles[s]])
    ensures Published(g, handles, m, s)
  {
  }

  ghost predicate Published(g: Graph, handles: map<Source, Handle>, m: Snapshots, s: Source)
    requires s in g && s in handles && handles[s] in m
  {
    var snap := m[handles[s]];
    && snap.name == g[s].name && Known(handles, g[s].related) && snap.related == HandleOf(handles, g[s].related)
    && |snap.subs| >= |g[s].subs|
    && forall i | 0 <= i < |g[s].subs| :: Known(handles, g[s].subs[i]) && snap.subs[i] == HandleOf(handles,
        g[s].subs[i])
  }

  lemma StillListed(m: Snapshots, n: Snapshots, a: Handle, d: Handle)
    requires a in m && d in m && PairOk(m, a, d) && forall h <- m :: h in n && n[h] == m[h]
    ensures PairOk(n, a, d)
  {
    if StrictAncestor(m[a].name, m[d].name) {
      var i :| 0 <= i < |m[a].subs| && m[a].subs[i] in m && m[m[a].subs[i]].name == m[d].name;
      assert n[a].subs[i] in n;
    }
  }

  /** The handles of the pending snapshots, in some order. */
  method Order(pending: Snapshots) returns (order: seq<Handle>)
    ensures forall h :: h in order <==> h in pending
  {
    order := [];
    var todo := pending.Keys;
    while todo != {}
      invariant todo <= pending.Keys && forall h :: h in order <==> h in pending && h !in todo
    {
      var h :| h in todo;
      todo := todo - {h};
      order := order + [h];
    }
  }
}
