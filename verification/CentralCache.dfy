/** The central cache of the small-block allocator (CentralCache in runtime/src/Common/CentralCache.cpp).

    Memory maps an address to the pointer stored there; null is 0. The page cache is any provider of
    page runs that overlap no live span, and finds the live span an address lies in. */
module CentralCache {

  import opened Common
  import opened SizeClasses

  type Addr = nat

  type Id = nat

  type Memory = map<Addr, Addr>

  datatype Span = Span(start: Addr, bytes: nat, useCount: nat, freeBlocks: Addr) {
    predicate Contains(a: Addr) {
      start <= a < start + bytes
    }
  }

  /** What a span was carved into, and what of it lies on its free chain. */
  datatype Info = Info(size: nat, blocks: set<Addr>, free: seq<Addr>)

  // ---- chains through memory -------------------------------------------------------------------

  ghost predicate IsChain(mem: Memory, a: Addr, xs: seq<Addr>)
    decreases |xs|
  {
    if xs == [] then a == 0 else a == xs[0] && a != 0 && a in mem && IsChain(mem, mem[a], xs[1..])
  }

  ghost predicate Distinct(xs: seq<Addr>) {
    forall i, j | 0 <= i < j < |xs| :: xs[i] != xs[j]
  }

  /** Storing outside a chain leaves it alone. */
  lemma ChainFrame(mem: Memory, a: Addr, xs: seq<Addr>, b: Addr, v: Addr)
    requires IsChain(mem, a, xs) && b !in xs
    ensures IsChain(mem[b := v], a, xs)
    decreases |xs|
  {
    if xs != [] {
      ChainFrame(mem, mem[a], xs[1..], b, v);
    }
  }

  /** The pointer after the first `n` blocks of a chain. */
  lemma ChainDrop(mem: Memory, a: Addr, xs: seq<Addr>, n: nat)
    requires IsChain(mem, a, xs) && 1 <= n <= |xs|
    ensures xs[n - 1] in mem && IsChain(mem, mem[xs[n - 1]], xs[n..])
    decreases |xs|
  {
    if n > 1 {
      ChainDrop(mem, mem[a], xs[1..], n - 1);
      assert xs[1..][n - 1..] == xs[n..];
    }
  }

  /** Cutting a chain after its first `n` blocks leaves a chain of those. */
  lemma ChainCut(mem: Memory, a: Addr, xs: seq<Addr>, n: nat)
    requires IsChain(mem, a, xs) && 1 <= n <= |xs| && Distinct(xs)
    ensures IsChain(mem[xs[n - 1] := 0], a, xs[..n])
    decreases |xs|
  {
    var cut := mem[xs[n - 1] := 0];
    if n == 1 {
      assert xs[..1] == [a] && xs[..1][1..] == [];
    } else {
      assert xs[1..][n - 2] == xs[n - 1];
      assert Distinct(xs[1..]);
      ChainCut(mem, mem[a], xs[1..], n - 1);
      assert xs[..n][1..] == xs[1..][..n - 1];
    }
  }

  // ---- the state -------------------------------------------------------------------------------

  datatype State = State(
    mem: Memory, spans: map<Id, Span>, lists: seq<seq<Id>>, info: map<Id, Info>, owner: map<Addr, Id>)

  /** Conservation for one span: its free chain and its used blocks are all it was carved into, and the
      blocks are disjoint and inside. */
  ghost predicate SpanOk(v: State, id: Id)
    requires id in v.spans && id in v.info
  {
    var sp, inf := v.spans[id], v.info[id];
    && IsChain(v.mem, sp.freeBlocks, inf.free) && Distinct(inf.free) && (forall a <- inf.free :: a in inf.blocks)
    && sp.useCount + |inf.free| == |inf.blocks|
    && (forall a <- inf.blocks :: a != 0 && a in v.mem && a in v.owner && v.owner[a] == id)
    && (forall a <- inf.blocks :: sp.start <= a && a + inf.size <= sp.start + sp.bytes)
    && (forall a <- inf.blocks, b <- inf.blocks :: a < b ==> a + inf.size <= b)
  }

  ghost predicate SpansOk(v: State) {
    v.spans.Keys == v.info.Keys && forall id <- v.spans :: SpanOk(v, id)
  }

  ghost predicate RangesOk(v: State) {
    forall i <- v.spans, j <- v.spans, a: Addr :: v.spans[i].Contains(a) && v.spans[j].Contains(a) ==> i == j
  }

  /** Every span is once in the bucket of its block size. */
  ghost predicate ListsOk(v: State) {
    && |v.lists| == NFREELIST
    && (forall k | 0 <= k < NFREELIST :: Distinct(v.lists[k]))
    && (forall k, i | 0 <= k < NFREELIST && 0 <= i < |v.lists[k]| :: InBucket(v, v.lists[k][i], k))
    && (forall id <- v.spans :: id in v.info && Index(v.info[id].size) < NFREELIST &&
          id in v.lists[Index(v.info[id].size)])
  }

  ghost predicate InBucket(v: State, id: Id, k: nat) {
    id in v.spans && id in v.info && v.info[id].size > 0 && Index(v.info[id].size) == k
  }

  ghost predicate Valid(v: State) {
    SpansOk(v) && RangesOk(v) && ListsOk(v)
  }

  /** Only whole size classes were ever asked for, so that a bucket has one block size. */
  ghost predicate Classed(v: State) {
    forall id <- v.info :: RoundUp(v.info[id].size) == v.info[id].size
  }

  /** The blocks of a span that are in use. */
  ghost function Out(v: State, id: Id): set<Addr>
    requires id in v.info
  {
    set a | a in v.info[id].blocks && a !in v.info[id].free
  }

  /** The use count is the number of blocks in use. */
  lemma UseCount(v: State, id: Id)
    requires id in v.spans && id in v.info && SpanOk(v, id)
    ensures |Out(v, id)| == v.spans[id].useCount
  {
    var inf := v.info[id];
    Remaining(inf.blocks, inf.free);
    assert Out(v, id) == set a | a in inf.blocks && a !in inf.free;
  }

  lemma Remaining(s: set<Addr>, xs: seq<Addr>)
    requires Distinct(xs) && forall x <- xs :: x in s
    ensures |set a | a in s && a !in xs| + |xs| == |s|
  {
    if xs == [] {
      assert (set a | a in s && a !in xs) == s;
    } else {
      var x := xs[0];
      assert forall y <- xs[1..] :: y in s - {x};
      Remaining(s - {x}, xs[1..]);
      assert (set a | a in s && a !in xs) == set a | a in s - {x} && a !in xs[1..];
    }
  }

  // ---- steps -----------------------------------------------------------------------------------

  /** Only span `id` changes, and memory only inside its blocks. */
  ghost predicate Touches(v: State, w: State, id: Id, a: Addr) {
    && id in v.spans && id in v.info && id in w.spans && id in w.info && a in v.info[id].blocks
    && a in w.mem && w.mem == v.mem[a := w.mem[a]]
    && w.spans == v.spans[id := w.spans[id]] && w.info == v.info[id := w.info[id]]
    && w.lists == v.lists && w.owner == v.owner
    && w.info[id].size == v.info[id].size && w.info[id].blocks == v.info[id].blocks
    && w.spans[id].start == v.spans[id].start && w.spans[id].bytes == v.spans[id].bytes
  }

  lemma OtherSpan(v: State, w: State, id: Id, a: Addr, other: Id)
    requires Touches(v, w, id, a) && SpanOk(v, id) && other in v.spans && other in v.info && other != id
    requires SpanOk(v, other)
    ensures other in w.spans && other in w.info && SpanOk(w, other)
  {
    ChainFrame(v.mem, v.spans[other].freeBlocks, v.info[other].free, a, w.mem[a]);
  }

  lemma TouchedValid(v: State, w: State, id: Id, a: Addr)
    requires Valid(v) && Touches(v, w, id, a) && SpanOk(w, id)
    ensures Valid(w)
  {
    TouchedSpans(v, w, id, a);
    TouchedRanges(v, w, id, a);
    TouchedLists(v, w, id, a);
  }

  lemma TouchedSpans(v: State, w: State, id: Id, a: Addr)
    requires SpansOk(v) && Touches(v, w, id, a) && SpanOk(w, id)
    ensures SpansOk(w)
  {
    assert w.spans.Keys == v.spans.Keys && w.info.Keys == v.info.Keys;
    forall other | other in w.spans ensures SpanOk(w, other) {
      if other != id {
        OtherSpan(v, w, id, a, other);
      }
    }
  }

  lemma TouchedRanges(v: State, w: State, id: Id, a: Addr)
    requires RangesOk(v) && Touches(v, w, id, a)
    ensures RangesOk(w)
  {
    assert forall i <- w.spans, b: Addr :: w.spans[i].Contains(b) <==> v.spans[i].Contains(b);
  }

  lemma TouchedLists(v: State, w: State, id: Id, a: Addr)
    requires ListsOk(v) && Touches(v, w, id, a)
    ensures ListsOk(w)
  {
    assert forall k, i | 0 <= k < NFREELIST && 0 <= i < |v.lists[k]| :: InBucket(v, v.lists[k][i], k);
  }

  /** Taking the first `n` free blocks of a span. */
  ghost predicate Takes(v: State, w: State, id: Id, n: nat) {
    && id in v.spans && id in v.info && 1 <= n <= |v.info[id].free|
    && var sp, inf := v.spans[id], v.info[id];
       var last := inf.free[n - 1];
       && last in v.mem
       && w == v.(mem := v.mem[last := 0],
                  spans := v.spans[id := sp.(useCount := sp.useCount + n, freeBlocks := v.mem[last])],
                  info := v.info[id := inf.(free := inf.free[n..])])
  }

  lemma TakenSpan(v: State, w: State, id: Id, n: nat)
    requires Takes(v, w, id, n) && SpanOk(v, id)
    ensures SpanOk(w, id) && Touches(v, w, id, v.info[id].free[n - 1])
    ensures IsChain(w.mem, v.info[id].free[0], v.info[id].free[..n])
  {
    var sp, inf := v.spans[id], v.info[id];
    var last := inf.free[n - 1];
    ChainDrop(v.mem, sp.freeBlocks, inf.free, n);
    assert last !in inf.free[n..];
    ChainFrame(v.mem, v.mem[last], inf.free[n..], last, 0);
    ChainCut(v.mem, sp.freeBlocks, inf.free, n);
    assert Distinct(inf.free[n..]);
  }

  lemma TakenOut(v: State, w: State, id: Id, n: nat)
    requires Takes(v, w, id, n) && SpanOk(v, id)
    ensures Out(w, id) == Out(v, id) + (set a | a in v.info[id].free[..n])
  {
    var inf := v.info[id];
    assert inf.free == inf.free[..n] + inf.free[n..];
    forall a | a in inf.free[..n] ensures a !in inf.free[n..] {
    }
  }

  lemma Take(v: State, w: State, id: Id, n: nat)
    requires Valid(v) && Takes(v, w, id, n)
    ensures Valid(w) && IsChain(w.mem, v.info[id].free[0], v.info[id].free[..n])
    ensures Out(w, id) == Out(v, id) + (set a | a in v.info[id].free[..n])
  {
    TakenSpan(v, w, id, n);
    TakenOut(v, w, id, n);
    TouchedValid(v, w, id, v.info[id].free[n - 1]);
  }

  /** Putting block `a` back at the head of its span's free chain. */
  ghost predicate Puts(v: State, w: State, id: Id, a: Addr) {
    && id in v.spans && id in v.info && a in Out(v, id) && v.spans[id].useCount >= 1
    && var sp, inf := v.spans[id], v.info[id];
       w == v.(mem := v.mem[a := sp.freeBlocks],
               spans := v.spans[id := sp.(useCount := sp.useCount - 1, freeBlocks := a)],
               info := v.info[id := inf.(free := [a] + inf.free)])
  }

  lemma PutSpan(v: State, w: State, id: Id, a: Addr)
    requires Puts(v, w, id, a) && SpanOk(v, id)
    ensures SpanOk(w, id) && Touches(v, w, id, a) && Out(w, id) == Out(v, id) - {a}
  {
    var sp, inf := v.spans[id], v.info[id];
    ChainFrame(v.mem, sp.freeBlocks, inf.free, a, sp.freeBlocks);
    assert ([a] + inf.free)[1..] == inf.free;
  }

  lemma Put(v: State, w: State, id: Id, a: Addr)
    requires Valid(v) && Puts(v, w, id, a)
    ensures Valid(w) && Out(w, id) == Out(v, id) - {a}
  {
    PutSpan(v, w, id, a);
    TouchedValid(v, w, id, a);
  }

  /** Giving a span back to the page cache. */
  ghost predicate Returns(v: State, w: State, id: Id) {
    && id in v.spans && id in v.info && |v.lists| == NFREELIST && Index(v.info[id].size) < NFREELIST
    && var k := Index(v.info[id].size);
       w == v.(spans := v.spans - {id}, info := v.info - {id}, lists := v.lists[k := Without(v.lists[k], id)])
  }

  function Without(xs: seq<Id>, x: Id): (r: seq<Id>)
    ensures forall y :: y in r <==> y in xs && y != x
  {
    if xs == [] then [] else (if xs[0] == x then [] else [xs[0]]) + Without(xs[1..], x)
  }

  lemma WithoutDistinct(xs: seq<Id>, x: Id)
    requires Distinct(xs)
    ensures Distinct(Without(xs, x))
  {
    if xs != [] {
      assert Distinct(xs[1..]);
      WithoutDistinct(xs[1..], x);
      assert xs[0] !in xs[1..];
    }
  }

  lemma Return(v: State, w: State, id: Id)
    requires Valid(v) && Returns(v, w, id)
    ensures Valid(w)
  {
    forall other | other in w.spans ensures SpanOk(w, other) {
      assert SpanOk(v, other);
    }
    ReturnedLists(v, w, id);
  }

  lemma ReturnedLists(v: State, w: State, id: Id)
    requires ListsOk(v) && Returns(v, w, id)
    ensures ListsOk(w)
  {
    var k := Index(v.info[id].size);
    WithoutDistinct(v.lists[k], id);
    forall j, i | 0 <= j < NFREELIST && 0 <= i < |w.lists[j]| ensures InBucket(w, w.lists[j][i], j) {
      assert w.lists[j][i] in w.lists[j] && w.lists[j][i] in v.lists[j];
      var m :| 0 <= m < |v.lists[j]| && v.lists[j][m] == w.lists[j][i];
      assert InBucket(v, v.lists[j][m], j);
    }
  }

  // ---- carving ---------------------------------------------------------------------------------

  ghost predicate Adjacent(xs: seq<Addr>, i: nat, size: nat)
    requires i + 1 < |xs|
  {
    xs[i + 1] == xs[i] + size
  }

  ghost predicate Linked(m: Memory, xs: seq<Addr>, i: nat)
    requires i + 1 < |xs|
  {
    xs[i] in m && m[xs[i]] == xs[i + 1]
  }

  /** Blocks of `size` bytes laid side by side from `start` up to `end`, with no room for another. */
  ghost predicate Carved(xs: seq<Addr>, start: Addr, end: Addr, size: nat) {
    && xs != [] && xs[0] == start
    && (forall i | 0 <= i < |xs| - 1 :: Adjacent(xs, i, size))
    && xs[|xs| - 1] + size <= end < xs[|xs| - 1] + 2 * size
  }

  lemma {:induction false} CarvedApart(xs: seq<Addr>, size: nat, i: nat, j: nat)
    requires i < j < |xs| && forall k | 0 <= k < |xs| - 1 :: Adjacent(xs, k, size)
    ensures xs[i] + size <= xs[j]
    decreases j
  {
    if i < j - 1 {
      CarvedApart(xs, size, i, j - 1);
    }
    assert Adjacent(xs, j - 1, size);
  }

  lemma LinkedIsChain(mem: Memory, xs: seq<Addr>)
    requires xs != [] && (forall i | 0 <= i < |xs| :: xs[i] != 0 && xs[i] in mem)
    requires (forall i | 0 <= i < |xs| - 1 :: Linked(mem, xs, i)) && mem[xs[|xs| - 1]] == 0
    ensures IsChain(mem, xs[0], xs)
    decreases |xs|
  {
    if |xs| > 1 {
      var ys := xs[1..];
      forall i | 0 <= i < |ys| - 1 ensures Linked(mem, ys, i) {
        assert Linked(mem, xs, i + 1);
      }
      LinkedIsChain(mem, ys);
      assert Linked(mem, xs, 0);
    }
  }

  /** `m` is `mem` with the blocks `xs` linked in order, but for the pointer in the last. */
  ghost predicate Threaded(mem: Memory, m: Memory, xs: seq<Addr>, start: Addr, size: nat) {
    && xs != [] && xs[0] == start
    && (forall i | 0 <= i < |xs| - 1 :: Adjacent(xs, i, size))
    && (forall i | 0 <= i < |xs| - 1 :: Linked(m, xs, i))
    && (forall a :: a !in xs ==> (a in m <==> a in mem) && (a in mem ==> m[a] == mem[a]))
  }

  lemma ThreadedApart(xs: seq<Addr>, size: nat)
    requires forall k | 0 <= k < |xs| - 1 :: Adjacent(xs, k, size)
    ensures forall i, j | 0 <= i < j < |xs| :: xs[i] + size <= xs[j]
  {
    forall i, j | 0 <= i < j < |xs| ensures xs[i] + size <= xs[j] {
      CarvedApart(xs, size, i, j);
    }
  }

  lemma ThreadedStep(mem: Memory, m: Memory, n: Memory, xs: seq<Addr>, start: Addr, size: nat, next: Addr)
    requires Threaded(mem, m, xs, start, size) && size > 0
    requires next == xs[|xs| - 1] + size && n == m[xs[|xs| - 1] := next]
    ensures Threaded(mem, n, xs + [next], start, size)
  {
    var ys := xs + [next];
    forall i | 0 <= i < |ys| - 1 ensures Adjacent(ys, i, size) && Linked(n, ys, i) {
      if i < |xs| - 1 {
        CarvedApart(xs, size, i, |xs| - 1);
        assert Adjacent(xs, i, size) && Linked(m, xs, i);
      }
    }
    forall a | a !in ys ensures (a in n <==> a in mem) && (a in mem ==> n[a] == mem[a]) {
      assert a !in xs && a != xs[|xs| - 1];
    }
  }

  lemma ThreadedEnd(mem: Memory, m: Memory, xs: seq<Addr>, start: Addr, size: nat)
    requires Threaded(mem, m, xs, start, size) && size > 0 && start > 0
    ensures var n := m[xs[|xs| - 1] := 0]; IsChain(n, start, xs) && Threaded(mem, n, xs, start, size)
  {
    ThreadedApart(xs, size);
    var n := m[xs[|xs| - 1] := 0];
    forall i | 0 <= i < |xs| - 1 ensures Linked(n, xs, i) {
      assert Linked(m, xs, i);
    }
    forall i | 0 <= i < |xs| ensures xs[i] != 0 && xs[i] in n {
      if i > 0 {
        CarvedApart(xs, size, 0, i);
      }
      if i < |xs| - 1 {
        assert Linked(n, xs, i);
      }
    }
    LinkedIsChain(n, xs);
  }

  /** Thread a free chain through a fresh page run. */
  method Carve(mem: Memory, start: Addr, end: Addr, size: nat) returns (m: Memory, ghost xs: seq<Addr>)
    requires start > 0 && size > 0 && start + size <= end
    ensures Carved(xs, start, end, size) && IsChain(m, start, xs) && Threaded(mem, m, xs, start, size)
  {
    m, xs := mem, [start];
    var tail := start;
    var cursor := start + size;
    while end - cursor >= size
      invariant Threaded(mem, m, xs, start, size) && tail == xs[|xs| - 1] && cursor == tail + size <= end
      decreases end - cursor
    {
      ThreadedStep(mem, m, m[tail := cursor], xs, start, size, cursor);
      m := m[tail := cursor];
      tail := cursor;
      xs := xs + [cursor];
      cursor := cursor + size;
    }
    ThreadedEnd(mem, m, xs, start, size);
    m := m[tail := 0];
  }

  /** As many blocks as fit: block `i` lies `i` sizes from the start. */
  lemma {:induction false} CarvedAt(xs: seq<Addr>, size: nat, i: nat)
    requires i < |xs| && forall k | 0 <= k < |xs| - 1 :: Adjacent(xs, k, size)
    ensures xs[i] == xs[0] + i * size
  {
    if i > 0 {
      CarvedAt(xs, size, i - 1);
      assert Adjacent(xs, i - 1, size);
      Step(i, size);
    }
  }

  lemma Step(i: nat, size: nat)
    requires i > 0
    ensures i * size == (i - 1) * size + size
  {
  }

  lemma CarvedCount(xs: seq<Addr>, start: Addr, end: Addr, size: nat)
    requires Carved(xs, start, end, size)
    ensures start + |xs| * size <= end < start + (|xs| + 1) * size
  {
    CarvedAt(xs, size, |xs| - 1);
    Step(|xs|, size);
    Step(|xs| + 1, size);
  }

  lemma EnoughBlocks(n: nat, m: nat, size: nat, bytes: nat)
    requires n * size <= bytes < (m + 1) * size
    ensures n <= m
  {
    if n > m {
      Product(m + 1, n, size);
    }
  }

  /** A span just made: it starts at its page, has the fewest whole pages that hold the largest batch, and is carved
      into as many blocks as fit, all free. */
  ghost predicate JustMade(v: State, id: Id, page: nat, size: nat) {
    && id in v.spans && id in v.info && size > 0
    && var sp := v.spans[id];
       && sp.start == page * PAGE_SIZE && sp.useCount == 0 && sp.bytes % PAGE_SIZE == 0
       && LimitSize(size) * size <= sp.bytes < LimitSize(size) * size + PAGE_SIZE
       && v.info[id].size == size && Carved(v.info[id].free, sp.start, sp.start + sp.bytes, size)
  }

  /** It holds every batch a caller may ask for. */
  lemma JustMadeSuffices(v: State, id: Id, page: nat, size: nat, batch: nat)
    requires JustMade(v, id, page, size) && Affordable(batch, size)
    ensures batch <= |v.info[id].free|
  {
    var sp, xs := v.spans[id], v.info[id].free;
    AffordableIff(batch, size);
    Product(batch, LimitSize(size), size);
    CarvedCount(xs, sp.start, sp.start + sp.bytes, size);
    EnoughBlocks(batch, |xs|, size, sp.bytes);
  }

  lemma RunIsPages(page: nat, size: nat)
    requires size > 0
    ensures var sp := Run(page, size);
      sp.start == page * PAGE_SIZE && sp.useCount == 0 && sp.bytes % PAGE_SIZE == 0 &&
      LimitSize(size) * size <= sp.bytes < LimitSize(size) * size + PAGE_SIZE
  {
    PagesAreLeast(size);
  }

  /** A fresh span, carved into free blocks, at the front of its bucket. */
  ghost predicate Adds(v: State, w: State, id: Id, sp: Span, inf: Info) {
    && id !in v.spans && |v.lists| == NFREELIST && Index(inf.size) < NFREELIST
    && w.spans == v.spans[id := sp] && w.info == v.info[id := inf]
    && w.owner == v.owner + (map a | a in inf.blocks :: id)
    && w.lists == v.lists[Index(inf.size) := [id] + v.lists[Index(inf.size)]]
    && (forall a :: a !in inf.blocks ==> (a in w.mem <==> a in v.mem) && (a in v.mem ==> w.mem[a] == v.mem[a]))
    && (forall j <- v.spans, a: Addr :: v.spans[j].Contains(a) ==> !sp.Contains(a))
    && (forall a <- inf.blocks :: sp.Contains(a))
  }

  lemma ChainKept(v: Memory, w: Memory, a: Addr, xs: seq<Addr>)
    requires IsChain(v, a, xs) && forall x <- xs :: x in v && x in w && w[x] == v[x]
    ensures IsChain(w, a, xs)
    decreases |xs|
  {
    if xs != [] {
      ChainKept(v, w, v[a], xs[1..]);
    }
  }

  lemma AddsOther(v: State, w: State, id: Id, sp: Span, inf: Info, other: Id)
    requires Adds(v, w, id, sp, inf) && other in v.spans && other in v.info && SpanOk(v, other)
    requires v.info[other].size > 0
    ensures other in w.spans && other in w.info && SpanOk(w, other)
  {
    assert other != id;
    forall a | a in v.info[other].blocks ensures a !in inf.blocks && w.mem[a] == v.mem[a] && w.owner[a] == v.owner[a] {
      assert v.spans[other].Contains(a);
    }
    ChainKept(v.mem, w.mem, v.spans[other].freeBlocks, v.info[other].free);
  }

  lemma AddsLists(v: State, w: State, id: Id, sp: Span, inf: Info)
    requires Adds(v, w, id, sp, inf) && ListsOk(v) && v.spans.Keys == v.info.Keys
    requires inf.size > 0
    ensures ListsOk(w)
  {
    var k := Index(inf.size);
    forall i | 0 <= i < |v.lists[k]| ensures v.lists[k][i] != id {
      assert InBucket(v, v.lists[k][i], k);
    }
    assert Distinct(w.lists[k]);
    forall j, i | 0 <= j < NFREELIST && 0 <= i < |w.lists[j]| ensures InBucket(w, w.lists[j][i], j) {
      if j == k {
        if i > 0 {
          assert InBucket(v, v.lists[j][i - 1], j);
        }
      } else {
        assert InBucket(v, v.lists[j][i], j);
      }
    }
  }

  lemma AddsRanges(v: State, w: State, id: Id, sp: Span, inf: Info)
    requires Adds(v, w, id, sp, inf) && RangesOk(v)
    ensures RangesOk(w)
  {
  }

  lemma Add(v: State, w: State, id: Id, sp: Span, inf: Info)
    requires Valid(v) && Adds(v, w, id, sp, inf) && inf.size > 0 && SpanOk(w, id)
    ensures Valid(w)
  {
    assert SpansOk(w) by {
      forall other | other in w.spans ensures SpanOk(w, other) {
        if other != id {
          SizesPositive(v, other);
          AddsOther(v, w, id, sp, inf, other);
        }
      }
    }
    AddsRanges(v, w, id, sp, inf);
    AddsLists(v, w, id, sp, inf);
  }

  lemma SizesPositive(v: State, id: Id)
    requires ListsOk(v) && id in v.spans
    ensures id in v.info && v.info[id].size > 0
  {
    var k := Index(v.info[id].size);
    var i :| 0 <= i < |v.lists[k]| && v.lists[k][i] == id;
    assert InBucket(v, v.lists[k][i], k);
  }

  // ---- the cache -------------------------------------------------------------------------------

  /** A page run the page cache may hand out: it overlaps no live span. */
  ghost predicate FreshRun(v: State, id: Id, sp: Span) {
    && id !in v.spans && sp.start > 0 && sp.useCount == 0 && sp.freeBlocks == sp.start
    && forall j <- v.spans, a: Addr :: v.spans[j].Contains(a) ==> !sp.Contains(a)
  }

  function Run(page: nat, size: nat): Span
    requires size > 0
  {
    Span(page * PAGE_SIZE, CalculatePageNum(size) * PAGE_SIZE, 0, page * PAGE_SIZE)
  }

  /** A block the chain being released may hold: in use, from a span of this bucket, or of no live span. */
  ghost predicate Loose(v: State, x: Addr, index: nat) {
    || (forall id <- v.spans :: !v.spans[id].Contains(x))
    || (x in v.owner && v.owner[x] in v.spans && v.owner[x] in v.info &&
        Index(v.info[v.owner[x]].size) == index && x in Out(v, v.owner[x]))
  }

  ghost predicate Released(v: State, a: Addr, index: nat, xs: seq<Addr>) {
    IsChain(v.mem, a, xs) && Distinct(xs) && forall x <- xs :: Loose(v, x, index)
  }

  lemma ReleasedRest(v: State, a: Addr, index: nat, xs: seq<Addr>)
    requires Released(v, a, index, xs) && a != 0
    ensures xs != [] && a in v.mem && Released(v, v.mem[a], index, xs[1..]) && a !in xs[1..]
  {
  }

  /** The span an address lies in is the one it was carved from. */
  lemma OwnerIs(v: State, id: Id, a: Addr, index: nat)
    requires Valid(v) && id in v.spans && v.spans[id].Contains(a) && Loose(v, a, index)
    ensures id in v.info && a in Out(v, id) && a in v.owner && v.owner[a] == id && Index(v.info[id].size) == index
    ensures SpanOk(v, id) && a in v.mem
  {
    var o := v.owner[a];
    SizesPositive(v, o);
    assert SpanOk(v, o) && SpanOk(v, id);
    assert v.spans[o].Contains(a);
  }

  lemma PutReleased(v: State, w: State, id: Id, a: Addr, index: nat, xs: seq<Addr>)
    requires Released(v, a, index, xs) && a != 0 && Puts(v, w, id, a) && a in v.mem
    ensures Released(w, v.mem[a], index, xs[1..])
  {
    ReleasedRest(v, a, index, xs);
    ChainFrame(v.mem, v.mem[a], xs[1..], a, w.mem[a]);
    forall x | x in xs[1..] ensures Loose(w, x, index) {
      assert Loose(v, x, index) && x != a;
      assert w.info[id].free == [a] + v.info[id].free;
    }
  }

  /** Once no block of a span is in use, nothing of the chain lies in it. */
  lemma ReturnReleased(v: State, w: State, id: Id, a: Addr, index: nat, xs: seq<Addr>)
    requires Released(v, a, index, xs) && Returns(v, w, id) && Out(v, id) == {}
    ensures Released(w, a, index, xs)
  {
    forall x | x in xs ensures Loose(w, x, index) {
      assert Loose(v, x, index);
    }
  }

  /** What putting `a` back does to the spans: its own loses `a` from use, or goes if that was all. */
  ghost predicate Stepped(v: State, w: State, id: Id, a: Addr) {
    && v.spans.Keys == v.info.Keys && w.spans.Keys == w.info.Keys && w.spans.Keys <= v.spans.Keys
    && (forall j <- v.spans :: j != id ==> j in w.spans && w.info[j] == v.info[j])
    && id in v.spans && a in Out(v, id)
    && (id in w.spans <==> Out(v, id) != {a})
    && (id in w.spans ==> Out(w, id) == Out(v, id) - {a} && w.info[id] == v.info[id].(free := w.info[id].free))
  }

  lemma PutStays(v: State, u: State, id: Id, a: Addr)
    requires v.spans.Keys == v.info.Keys && Puts(v, u, id, a) && Out(u, id) == Out(v, id) - {a} && Out(u, id) != {}
    ensures Stepped(v, u, id, a)
  {
  }

  lemma PutGoes(v: State, u: State, w: State, id: Id, a: Addr)
    requires v.spans.Keys == v.info.Keys && Puts(v, u, id, a) && Out(u, id) == Out(v, id) - {a} && Out(u, id) == {}
    requires Returns(u, w, id)
    ensures Stepped(v, w, id, a)
  {
    assert Out(v, id) == {a};
  }

  /** Releasing the blocks `done` takes exactly them out of use; a span stays unless that leaves none of
      its used blocks in use. */
  ghost predicate Progress(v: State, w: State, done: seq<Addr>) {
    && v.spans.Keys == v.info.Keys && w.spans.Keys == w.info.Keys && w.spans.Keys <= v.spans.Keys
    && (forall j <- v.spans :: j in w.spans <==> Out(v, j) == {} || exists a <- Out(v, j) :: a !in done)
    && (forall j <- w.spans :: Out(w, j) == (set a | a in Out(v, j) && a !in done))
    && (forall j <- w.spans :: w.info[j] == v.info[j].(free := w.info[j].free))
  }

  lemma ProgressSkip(v: State, w: State, a: Addr, done: seq<Addr>)
    requires Progress(v, w, done) && Valid(w) && forall id <- w.spans :: !w.spans[id].Contains(a)
    ensures Progress(v, w, done + [a])
  {
    forall j | j in w.spans ensures a !in Out(v, j) {
      SizesPositive(w, j);
      assert SpanOk(w, j);
    }
    ProgressOther(v, w, a, done);
  }

  lemma ProgressOther(v: State, w: State, a: Addr, done: seq<Addr>)
    requires Progress(v, w, done) && forall j <- w.spans :: a !in Out(v, j)
    ensures Progress(v, w, done + [a])
  {
    forall j | j in v.spans ensures j in w.spans <==> Out(v, j) == {} || exists x <- Out(v, j) :: x !in done + [a] {
      if j in w.spans && Out(v, j) != {} {
        var x :| x in Out(v, j) && x !in done;
        assert x !in done + [a];
      }
    }
  }

  lemma ProgressPut(v: State, u: State, w: State, id: Id, a: Addr, done: seq<Addr>)
    requires Progress(v, u, done) && SpansOk(u) && Stepped(u, w, id, a)
    ensures Progress(v, w, done + [a])
  {
    OtherSpansKeep(v, u, id, a, done);
    forall j | j in v.spans ensures j in w.spans <==> Out(v, j) == {} || exists x <- Out(v, j) :: x !in done + [a] {
      ProgressSpan(v, u, w, id, a, done, j);
    }
    ProgressOut(v, u, w, id, a, done);
  }

  lemma OtherSpansKeep(v: State, u: State, id: Id, a: Addr, done: seq<Addr>)
    requires Progress(v, u, done) && SpansOk(u) && id in u.spans && a in Out(u, id)
    ensures forall j <- u.spans :: j != id ==> a !in Out(v, j)
  {
    forall j | j in u.spans && j != id ensures a !in Out(v, j) {
      assert SpanOk(u, j) && SpanOk(u, id);
    }
  }

  lemma ProgressOut(v: State, u: State, w: State, id: Id, a: Addr, done: seq<Addr>)
    requires Progress(v, u, done) && Stepped(u, w, id, a) && forall j <- u.spans :: j != id ==> a !in Out(v, j)
    ensures forall j <- w.spans :: Out(w, j) == (set x | x in Out(v, j) && x !in done + [a])
    ensures forall j <- w.spans :: w.info[j] == v.info[j].(free := w.info[j].free)
  {
    forall j | j in w.spans ensures Out(w, j) == set x | x in Out(v, j) && x !in done + [a] {
      if j != id {
        assert Out(w, j) == Out(u, j);
      }
    }
  }

  lemma ProgressSpan(v: State, u: State, w: State, id: Id, a: Addr, done: seq<Addr>, j: Id)
    requires Progress(v, u, done) && Stepped(u, w, id, a) && j in v.spans
    requires j in u.spans && j != id ==> a !in Out(v, j)
    ensures j in w.spans <==> Out(v, j) == {} || exists x <- Out(v, j) :: x !in done + [a]
  {
    if j == id {
      assert a in Out(v, j) && a !in done;
      if j in w.spans {
        var x :| x in Out(u, j) && x != a;
        assert x in Out(v, j) && x !in done + [a];
      } else {
        forall x | x in Out(v, j) ensures x in done + [a] {
          if x !in done {
            assert x in Out(u, j);
          }
        }
      }
    } else if j in u.spans {
      if Out(v, j) != {} {
        var x :| x in Out(v, j) && x !in done;
        assert x !in done + [a];
      }
    }
  }

  /** A carved run is a sound span with every block free. */
  lemma CarvedSpan(w: State, id: Id, size: nat, xs: seq<Addr>)
    requires id in w.spans && id in w.info && w.spans[id].start > 0 && size > 0
    requires w.info[id] == Info(size, (set x | x in xs), xs) && w.spans[id].useCount == 0
    requires Carved(xs, w.spans[id].start, w.spans[id].start + w.spans[id].bytes, size)
    requires IsChain(w.mem, w.spans[id].freeBlocks, xs)
    requires forall x <- xs :: x in w.owner && w.owner[x] == id && x in w.mem
    ensures SpanOk(w, id)
  {
    var inf := w.info[id];
    ThreadedApart(xs, size);
    forall x | x in inf.blocks ensures w.spans[id].start <= x && x + size <= w.spans[id].start + w.spans[id].bytes {
      var i :| 0 <= i < |xs| && xs[i] == x;
    }
    forall a, b | a in inf.blocks && b in inf.blocks && a < b ensures a + size <= b {
      var i :| 0 <= i < |xs| && xs[i] == a;
      var j :| 0 <= j < |xs| && xs[j] == b;
    }
    Remaining(inf.blocks, xs);
    assert (set a | a in inf.blocks && a !in xs) == {};
  }

  ghost predicate NoneFree(v: State, k: nat, n: nat) {
    k < |v.lists| && n <= |v.lists[k]| &&
    forall i | 0 <= i < n :: v.lists[k][i] in v.spans && v.spans[v.lists[k][i]].freeBlocks == 0
  }

  /** `id` is the first span of the bucket with a free block, or a new one if there is none. */
  ghost predicate FirstFree(v: State, k: nat, id: Id) {
    k < |v.lists| &&
    if id in v.spans then exists i | 0 <= i < |v.lists[k]| :: v.lists[k][i] == id && NoneFree(v, k, i)
    else NoneFree(v, k, |v.lists[k]|)
  }

  lemma BucketIs(v: State, size: nat)
    requires Valid(v) && 1 <= size <= MAX_BYTES
    ensures Index(size) < NFREELIST == |v.lists| && forall id <- v.lists[Index(size)] :: id in v.spans
  {
    BucketOfRequest(size);
    var k := Index(size);
    forall id | id in v.lists[k] ensures id in v.spans {
      var i :| 0 <= i < |v.lists[k]| && v.lists[k][i] == id;
      assert InBucket(v, v.lists[k][i], k);
    }
  }

  lemma FoundInBucket(v: State, size: nat, i: nat)
    requires Valid(v) && 1 <= size <= MAX_BYTES && NoneFree(v, Index(size), i)
    ensures var bucket := v.lists[Index(size)];
      if i < |bucket| then
        && bucket[i] in v.spans && bucket[i] in v.info
        && RoundUp(v.info[bucket[i]].size) == RoundUp(size) && FirstFree(v, Index(size), bucket[i])
      else forall id :: id !in v.spans ==> FirstFree(v, Index(size), id)
  {
    var k := Index(size);
    if i < |v.lists[k]| {
      assert InBucket(v, v.lists[k][i], k);
      SameBucket(size, v.info[v.lists[k][i]].size);
    }
  }

  method FirstWithFree(bucket: seq<Id>, spans: map<Id, Span>) returns (i: nat)
    requires forall id <- bucket :: id in spans
    ensures i <= |bucket| && (forall j | 0 <= j < i :: spans[bucket[j]].freeBlocks == 0)
    ensures i < |bucket| ==> spans[bucket[i]].freeBlocks != 0
  {
    i := 0;
    while i < |bucket| && spans[bucket[i]].freeBlocks == 0
      invariant i <= |bucket| && forall j | 0 <= j < i :: spans[bucket[j]].freeBlocks == 0
    {
      i := i + 1;
    }
  }

  /** The first span of the bucket that has a free block has large enough ones, if there is such a span. */
  ghost predicate Suffices(v: State, size: nat) {
    forall id <- v.spans :: v.spans[id].freeBlocks != 0 && FirstFree(v, Index(size), id) ==>
      id in v.info && v.info[id].size >= size
  }

  lemma OneFirstFree(v: State, k: nat, x: Id, y: Id)
    requires x in v.spans && v.spans[x].freeBlocks != 0 && FirstFree(v, k, x)
    requires y in v.spans && v.spans[y].freeBlocks != 0 && FirstFree(v, k, y)
    ensures x == y
  {
    var i :| 0 <= i < |v.lists[k]| && v.lists[k][i] == x && NoneFree(v, k, i);
    var j :| 0 <= j < |v.lists[k]| && v.lists[k][j] == y && NoneFree(v, k, j);
  }

  lemma NoFirstFree(v: State, k: nat, x: Id)
    requires k < |v.lists| && NoneFree(v, k, |v.lists[k]|) && x in v.spans && FirstFree(v, k, x)
    ensures v.spans[x].freeBlocks == 0
  {
    var i :| 0 <= i < |v.lists[k]| && v.lists[k][i] == x && NoneFree(v, k, i);
  }

  lemma SufficesIff(v: State, size: nat, found: Option<Id>)
    requires found.Some? ==> found.value in v.spans && found.value in v.info && v.spans[found.value].freeBlocks != 0
    requires found.Some? ==> FirstFree(v, Index(size), found.value)
    requires found.None? ==> Index(size) < |v.lists| && NoneFree(v, Index(size), |v.lists[Index(size)]|)
    ensures Suffices(v, size) <==> (found.Some? ==> v.info[found.value].size >= size)
  {
    forall id | id in v.spans && v.spans[id].freeBlocks != 0 && FirstFree(v, Index(size), id)
      ensures found == Some(id)
    {
      if found.Some? {
        OneFirstFree(v, Index(size), id, found.value);
      } else {
        NoFirstFree(v, Index(size), id);
      }
    }
  }

  /** Why whole classes matter: after blocks of 9 bytes were asked for, a request of 16 meets them first. */
  lemma UndersizedBlocks(v: State, id: Id)
    requires Valid(v) && id in v.spans && v.info[id].size == 9 && v.spans[id].freeBlocks != 0 && v.lists[1] == [id]
    ensures FirstFree(v, Index(16), id) && !Suffices(v, 16) && !Classed(v)
  {
    assert Index(16) == 1 && v.lists[1][0] == id && NoneFree(v, 1, 0);
    assert RoundUp(9) == 16;
  }

  /** An existing span was found, or a carved one with no block in use was added. */
  ghost predicate Provided(v: State, w: State, id: Id, newId: Id) {
    && (id in v.spans ==> w == v)
    && (id !in v.spans ==> id == newId && w.spans.Keys == v.spans.Keys + {id} && id in w.info && Out(w, id) == {})
    && (forall j <- v.spans :: j in w.spans && w.spans[j] == v.spans[j])
    && (forall j <- v.info :: j in w.info && w.info[j] == v.info[j])
  }

  /** The blocks in use are those from before and the ones taken, which nobody had; other spans did not
      change. */
  ghost predicate Fetched(v: State, w: State, id: Id, taken: seq<Addr>) {
    && Distinct(taken) && id in w.info && w.spans.Keys == v.spans.Keys + {id}
    && (if id in v.info then
          (forall a <- taken :: a !in Out(v, id)) && Out(w, id) == Out(v, id) + (set a | a in taken)
        else Out(w, id) == set a | a in taken)
    && (forall j <- v.spans :: j != id ==> j in w.spans && w.spans[j] == v.spans[j])
    && (forall j <- v.info :: j != id ==> j in w.info && w.info[j] == v.info[j])
  }

  lemma TakeFetches(v: State, u: State, w: State, id: Id, newId: Id, n: nat)
    requires v.spans.Keys == v.info.Keys && Provided(v, u, id, newId) && Takes(u, w, id, n)
    requires Distinct(u.info[id].free) && Out(w, id) == Out(u, id) + (set a | a in u.info[id].free[..n])
    ensures Fetched(v, w, id, u.info[id].free[..n])
  {
    assert Distinct(u.info[id].free[..n]);
    assert w.spans.Keys == u.spans.Keys;
    forall a | a in u.info[id].free[..n] ensures a !in Out(u, id) {
      assert a in u.info[id].free;
    }
  }

  function Least(m: nat, n: nat): nat {
    if m <= n then m else n
  }

  /** The batch is as large as asked for, unless the span it comes from has fewer free blocks; a new span has enough
      for every batch a caller may ask for. */
  ghost predicate Filled(v: State, id: Id, batch: nat, size: nat, n: nat) {
    && (id in v.spans && id in v.info ==> n == Least(batch, |v.info[id].free|))
    && (id !in v.spans && Affordable(batch, size) ==> n == batch)
  }

  /** What a request for a span gets: the first of the bucket with a free block, as it was, or if there is none a new
      one. The code looks only at the bucket, so the blocks are large enough exactly when those of that first span
      are; they are of the size asked for if only whole classes are ever asked for. */
  ghost predicate Got(v: State, w: State, id: Id, newId: Id, page: nat, size: nat) {
    && Provided(v, w, id, newId) && FirstFree(v, Index(size), id)
    && id in w.spans && w.spans[id].freeBlocks != 0 && RightSize(v, w, id, size)
    && (id !in v.spans ==> JustMade(w, id, page, size) && InFront(v, w, Index(size), id))
  }

  /** The bucket has gained the span at its front. */
  ghost predicate InFront(v: State, w: State, k: nat, id: Id) {
    k < |v.lists| && w.lists == v.lists[k := [id] + v.lists[k]]
  }

  ghost predicate RightSize(v: State, w: State, id: Id, size: nat) {
    && id in w.info && RoundUp(w.info[id].size) == RoundUp(size)
    && (w.info[id].size >= size <==> Suffices(v, size))
    && (Classed(v) && RoundUp(size) == size ==> Classed(w) && w.info[id].size == size)
  }

  lemma SizeKept(v: State, u: State, w: State, id: Id, size: nat, n: nat)
    requires RightSize(v, u, id, size) && Takes(u, w, id, n)
    ensures RightSize(v, w, id, size)
  {
    assert w.info.Keys == u.info.Keys && forall j <- w.info :: w.info[j].size == u.info[j].size;
  }

  lemma FoundSize(v: State, id: Id, size: nat)
    requires id in v.info && RoundUp(v.info[id].size) == RoundUp(size)
    requires v.info[id].size >= size <==> Suffices(v, size)
    ensures RightSize(v, v, id, size)
  {
  }

  lemma MadeSize(v: State, w: State, id: Id, size: nat)
    requires id in w.info && w.info[id].size == size && Suffices(v, size) && w.info.Keys == v.info.Keys + {id}
    requires forall j <- v.info :: w.info[j] == v.info[j]
    ensures RightSize(v, w, id, size)
  {
  }

  lemma Made(v: State, w: State, newId: Id, page: nat, size: nat)
    requires newId !in v.spans && v.spans.Keys == v.info.Keys && JustMade(w, newId, page, size)
    requires FirstFree(v, Index(size), newId) && Suffices(v, size) && w.spans[newId].freeBlocks != 0
    requires InFront(v, w, Index(size), newId)
    requires w.spans.Keys == v.spans.Keys + {newId} == w.info.Keys && Out(w, newId) == {}
    requires forall j <- v.spans :: w.spans[j] == v.spans[j] && w.info[j] == v.info[j]
    ensures Got(v, w, newId, newId, page, size)
  {
    MadeSize(v, w, newId, size);
  }

  /** What a caller gets: a null-terminated chain of blocks of one span that nobody had, as many as asked for if the
      span has them, and nothing else changes hands. */
  ghost predicate Delivered(v: State, w: State, id: Id, newId: Id, batch: nat, size: nat, taken: seq<Addr>) {
    && 1 <= |taken| <= batch && IsChain(w.mem, taken[0], taken) && Fetched(v, w, id, taken)
    && (id in v.spans || id == newId) && FirstFree(v, Index(size), id)
    && id in w.spans && (|taken| < batch ==> w.spans[id].freeBlocks == 0) && Filled(v, id, batch, size, |taken|)
    && RightSize(v, w, id, size)
  }

  lemma Deliver(v: State, u: State, w: State, id: Id, newId: Id, page: nat, size: nat, batch: nat, n: nat)
    requires SpansOk(v) && SpansOk(u) && Got(v, u, id, newId, page, size) && Takes(u, w, id, n) && 1 <= n <= batch
    requires n == Least(batch, |u.info[id].free|) && (n < batch ==> w.spans[id].freeBlocks == 0)
    requires Out(w, id) == Out(u, id) + (set a | a in u.info[id].free[..n])
    requires IsChain(w.mem, u.info[id].free[0], u.info[id].free[..n])
    ensures Delivered(v, w, id, newId, batch, size, u.info[id].free[..n])
  {
    assert SpanOk(u, id);
    TakeFetches(v, u, w, id, newId, n);
    BatchIsFilled(v, u, id, newId, page, size, batch, n);
    SizeKept(v, u, w, id, size, n);
  }

  lemma BatchIsFilled(v: State, u: State, id: Id, newId: Id, page: nat, size: nat, batch: nat, n: nat)
    requires Provided(v, u, id, newId) && id in u.info && n == Least(batch, |u.info[id].free|)
    requires id !in v.spans ==> JustMade(u, id, page, size)
    ensures Filled(v, id, batch, size, n)
  {
    if id !in v.spans && Affordable(batch, size) {
      JustMadeSuffices(u, id, page, size, batch);
    }
  }

  class Cache {
    var mem: Memory
    var spans: map<Id, Span>
    var lists: seq<seq<Id>>

    ghost var info: map<Id, Info>
    ghost var owner: map<Addr, Id>

    ghost function Now(): State
      reads this
    {
      State(mem, spans, lists, info, owner)
    }

    constructor ()
      ensures Valid(Now()) && spans == map[]
    {
      mem, spans, info, owner := map[], map[], map[], map[];
      lists := seq(NFREELIST, _ => []);
    }

    /** The first span of a bucket that has a free block, or a freshly carved one when there is none. */
    method GetOneSpan(size: nat, newId: Id, newPage: nat) returns (id: Id)
      requires Valid(Now()) && 8 <= size <= MAX_BYTES && FreshRun(Now(), newId, Run(newPage, size))
      modifies this
      ensures Valid(Now()) && Got(old(Now()), Now(), id, newId, newPage, size)
    {
      var found := FindFree(size);
      if found.Some? {
        FoundSize(Now(), found.value, size);
        return found.value;
      }
      SpanSize(size);
      RunIsPages(newPage, size);
      NewSpan(size, newId, Run(newPage, size));
      Made(old(Now()), Now(), newId, newPage, size);
      return newId;
    }

    method FindFree(size: nat) returns (found: Option<Id>)
      requires Valid(Now()) && 8 <= size <= MAX_BYTES
      ensures found.Some? ==> found.value in spans && found.value in info && spans[found.value].freeBlocks != 0
      ensures found.Some? ==> RoundUp(info[found.value].size) == RoundUp(size) && FirstFree(Now(), Index(size),
        found.value)
      ensures Suffices(Now(), size) <==> (found.Some? ==> info[found.value].size >= size)
      ensures found.None? ==> forall id :: id !in spans ==> FirstFree(Now(), Index(size), id)
    {
      BucketIs(Now(), size);
      var bucket := lists[Index(size)];
      var i := FirstWithFree(bucket, spans);
      FoundInBucket(Now(), size, i);
      found := if i < |bucket| then Some(bucket[i]) else None;
      SufficesIff(Now(), size, found);
    }

    method NewSpan(size: nat, id: Id, sp: Span)
      requires Valid(Now()) && 8 <= size <= MAX_BYTES
      requires FreshRun(Now(), id, sp) && size <= sp.bytes
      modifies this
      ensures Valid(Now()) && id in info && info[id].size == size && id in spans && spans[id].freeBlocks != 0
      ensures Out(Now(), id) == {} && spans[id] == sp && Carved(info[id].free, sp.start, sp.start + sp.bytes, size)
      ensures spans.Keys == old(spans.Keys) + {id} == info.Keys && InFront(old(Now()), Now(), Index(size), id)
      ensures forall j <- old(spans) :: spans[j] == old(spans)[j] && info[j] == old(info)[j]
    {
      BucketOfRequest(size);
      var m, xs := Carve(mem, sp.start, sp.start + sp.bytes, size);
      Install(m, size, id, sp, xs);
      CarvedRun(old(Now()), Now(), id, sp, size, xs);
    }

    /** Up to `batch` blocks of one size class: a null-terminated chain of blocks that nobody had. */
    method FetchRangeObj(batch: nat, size: nat, newId: Id, newPage: nat)
      returns (start: Addr, end: Addr, n: nat, ghost id: Id, ghost taken: seq<Addr>)
      requires Valid(Now()) && batch > 0 && 8 <= size <= MAX_BYTES
      requires FreshRun(Now(), newId, Run(newPage, size))
      modifies this
      ensures Valid(Now()) && |taken| == n && n > 0 && start == taken[0] && end == taken[n - 1]
      ensures Delivered(old(Now()), Now(), id, newId, batch, size, taken)
    {
      var span := GetOneSpan(size, newId, newPage);
      id := span;
      ghost var u := Now();
      start, end, n, taken := FetchFrom(span, batch);
      Deliver(old(Now()), u, Now(), id, newId, newPage, size, batch, n);
    }

    method FetchFrom(id: Id, batch: nat) returns (start: Addr, end: Addr, n: nat, ghost taken: seq<Addr>)
      requires Valid(Now()) && batch > 0 && id in spans && spans[id].freeBlocks != 0
      modifies this`mem, this`spans, this`info
      ensures 1 <= n <= batch && |taken| == n && Takes(old(Now()), Now(), id, n) && taken == old(info[id]).free[..n]
      ensures Valid(Now()) && Out(Now(), id) == Out(old(Now()), id) + (set a | a in taken)
      ensures start == taken[0] && end == taken[n - 1] && IsChain(mem, start, taken)
      ensures n < batch ==> spans[id].freeBlocks == 0
      ensures n == Least(batch, |old(info[id]).free|)
    {
      start := spans[id].freeBlocks;
      assert SpanOk(Now(), id);
      end, n := Walk(mem, start, info[id].free, batch);
      taken := info[id].free[..n];
      Detach(id, end, n);
      Take(old(Now()), Now(), id, n);
    }

    method Detach(id: Id, end: Addr, n: nat)
      requires id in spans && id in info && end in mem && 1 <= n <= |info[id].free| && end == info[id].free[n - 1]
      modifies this`mem, this`spans, this`info
      ensures Takes(old(Now()), Now(), id, n)
    {
      spans := spans[id := spans[id].(freeBlocks := mem[end])];
      mem := mem[end := 0];
      spans := spans[id := spans[id].(useCount := spans[id].useCount + n)];
      info := info[id := info[id].(free := info[id].free[n..])];
    }

    /** The page cache's lookup: the live span an address lies in. */
    method MapObjectToSpan(a: Addr) returns (r: Option<Id>)
      requires Valid(Now())
      ensures r.Some? ==> r.value in spans && spans[r.value].Contains(a)
      ensures r.None? ==> forall id <- spans :: !spans[id].Contains(a)
    {
      if id :| id in spans && spans[id].Contains(a) {
        return Some(id);
      }
      return None;
    }

    /** Put the blocks of a released chain back into their spans; a span none of whose blocks is in use
        any more goes back to the page cache, and nothing of the chain still lies in it then. */
    method ReleaseListToSpans(first: Addr, index: nat, ghost blocks: seq<Addr>)
      requires Valid(Now()) && first != 0 && index < NFREELIST && Released(Now(), first, index, blocks)
      modifies this
      ensures Valid(Now()) && Progress(old(Now()), Now(), blocks) && (Classed(old(Now())) ==> Classed(Now()))
    {
      var start := first;
      ghost var done: seq<Addr> := [];
      ghost var rest := blocks;
      while start != 0
        invariant Valid(Now()) && Released(Now(), start, index, rest) && blocks == done + rest
        invariant Progress(old(Now()), Now(), done)
        decreases |rest|
      {
        ghost var v := Now();
        var next := mem[start];
        var span := MapObjectToSpan(start);
        if span.Some? {
          PutBack(span.value, start, index, rest);
          ProgressPut(old(Now()), v, Now(), span.value, start, done);
        } else {
          ReleasedRest(v, start, index, rest);
          ProgressSkip(old(Now()), v, start, done);
        }
        MoveOne(done, rest);
        done, rest := done + [start], rest[1..];
        start := next;
      }
      assert done == blocks;
    }

    method PutBack(id: Id, a: Addr, index: nat, ghost rest: seq<Addr>)
      requires Valid(Now()) && id in spans && spans[id].Contains(a) && a != 0 && Released(Now(), a, index, rest)
      modifies this
      ensures Valid(Now()) && Stepped(old(Now()), Now(), id, a) && Released(Now(), old(mem[a]), index, rest[1..])
    {
      OwnerIs(Now(), id, a, index);
      UseCount(Now(), id);
      PushBlock(id, a);
      ghost var u := Now();
      Put(old(Now()), u, id, a);
      PutReleased(old(Now()), u, id, a, index, rest);
      UseCount(u, id);
      if spans[id].useCount != 0 {
        PutStays(old(Now()), u, id, a);
      } else {
        Drop(id, index);
        Return(u, Now(), id);
        PutGoes(old(Now()), u, Now(), id, a);
        ReturnReleased(u, Now(), id, old(mem[a]), index, rest[1..]);
      }
    }

    method PushBlock(id: Id, a: Addr)
      requires id in spans && id in info && spans[id].useCount >= 1 && a in Out(Now(), id)
      modifies this`mem, this`spans, this`info
      ensures Puts(old(Now()), Now(), id, a)
    {
      mem := mem[a := spans[id].freeBlocks];
      spans := spans[id := spans[id].(freeBlocks := a, useCount := spans[id].useCount - 1)];
      info := info[id := info[id].(free := [a] + info[id].free)];
    }

    method Drop(id: Id, index: nat)
      requires id in spans && id in info && |lists| == NFREELIST && index == Index(info[id].size) < NFREELIST
      modifies this`lists, this`spans, this`info
      ensures Returns(old(Now()), Now(), id)
    {
      lists := lists[index := Without(lists[index], id)];
      spans := spans - {id};
      info := info - {id};
    }

    method Install(m: Memory, size: nat, id: Id, sp: Span, ghost xs: seq<Addr>)
      requires |lists| == NFREELIST && Index(size) < NFREELIST
      modifies this
      ensures Installs(old(Now()), Now(), m, size, id, sp, xs)
    {
      mem := m;
      spans := spans[id := sp];
      lists := lists[Index(size) := [id] + lists[Index(size)]];
      ghost var blocks := set x | x in xs;
      info := info[id := Info(size, blocks, xs)];
      owner := owner + (map a | a in blocks :: id);
    }
  }

  ghost predicate Installs(v: State, w: State, m: Memory, size: nat, id: Id, sp: Span, xs: seq<Addr>)
    requires |v.lists| == NFREELIST && Index(size) < NFREELIST
  {
    var blocks := set x | x in xs;
    && w.mem == m && w.spans == v.spans[id := sp] && w.info == v.info[id := Info(size, blocks, xs)]
    && w.lists == v.lists[Index(size) := [id] + v.lists[Index(size)]]
    && w.owner == v.owner + (map a | a in blocks :: id)
  }

  lemma CarvedRun(v: State, w: State, id: Id, sp: Span, size: nat, xs: seq<Addr>)
    requires Valid(v) && 8 <= size <= MAX_BYTES && FreshRun(v, id, sp)
    requires Index(size) < NFREELIST && Installs(v, w, w.mem, size, id, sp, xs)
    requires Carved(xs, sp.start, sp.start + sp.bytes, size) && IsChain(w.mem, sp.start, xs)
    requires Threaded(v.mem, w.mem, xs, sp.start, size)
    ensures Valid(w) && id in w.info && w.info[id].size == size && Out(w, id) == {}
  {
    BucketOfRequest(size);
    InMemory(w.mem, sp.start, xs);
    CarvedSpan(w, id, size, xs);
    CarvedAdds(v, w, id, sp, size, xs);
    Add(v, w, id, sp, w.info[id]);
  }

  lemma CarvedAdds(v: State, w: State, id: Id, sp: Span, size: nat, xs: seq<Addr>)
    requires |v.lists| == NFREELIST && Index(size) < NFREELIST && size > 0 && FreshRun(v, id, sp)
    requires Installs(v, w, w.mem, size, id, sp, xs)
    requires Threaded(v.mem, w.mem, xs, sp.start, size) && SpanOk(w, id)
    ensures Adds(v, w, id, sp, w.info[id])
  {
    var inf := w.info[id];
    forall a | a !in inf.blocks ensures (a in w.mem <==> a in v.mem) && (a in v.mem ==> w.mem[a] == v.mem[a]) {
      assert a !in xs;
    }
    forall a | a in inf.blocks ensures sp.Contains(a) {
    }
  }

  /** Follow a chain for at most `batch` blocks. */
  method Walk(mem: Memory, start: Addr, ghost free: seq<Addr>, batch: nat) returns (end: Addr, n: nat)
    requires batch > 0 && IsChain(mem, start, free) && start != 0
    ensures 1 <= n <= batch && n <= |free| && end == free[n - 1] && end in mem
    ensures n == Least(batch, |free|) && (n < batch ==> mem[end] == 0)
  {
    end, n := start, 1;
    ChainDrop(mem, start, free, n);
    while n < batch && mem[end] != 0
      invariant 1 <= n <= batch && n <= |free| && end == free[n - 1] && end in mem && IsChain(mem, mem[end], free[n..])
      decreases batch - n
    {
      n := n + 1;
      end := mem[end];
      ChainDrop(mem, start, free, n);
    }
  }

  lemma MoveOne(xs: seq<Addr>, ys: seq<Addr>)
    requires ys != []
    ensures xs + ys == (xs + [ys[0]]) + ys[1..]
  {
  }

  lemma InMemory(mem: Memory, a: Addr, xs: seq<Addr>)
    requires IsChain(mem, a, xs)
    ensures forall x <- xs :: x in mem && x != 0
    decreases |xs|
  {
    if xs != [] {
      InMemory(mem, mem[a], xs[1..]);
    }
  }
}
