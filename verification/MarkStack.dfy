/** The collector's work stack of linked chunks (MarkStackBuf and MarkStack in
    runtime/src/Common/MarkWorkStack.h). */
module MarkStack {

  import opened Sealing

  const MAX: nat := 64

  type Entry = nat

  class Chunk {
    var next: Chunk?
    var pre: Chunk?
    var count: nat
    const stack: array<Entry>

    constructor ()
      ensures next == null && pre == null && count == 0 && stack.Length == MAX && fresh(stack)
    {
      next, pre, count := null, null, 0;
      stack := new Entry[MAX];
    }

    method PushBack(v: Entry, ghost xs: seq<Entry>)
      requires Item(this, xs) && count < MAX
      modifies this`count, stack
      ensures Item(this, xs + [v])
    {
      stack[count] := v;
      count := count + 1;
    }

    method PopBack(ghost xs: seq<Entry>)
      requires Item(this, xs) && count > 0
      modifies this`count
      ensures Item(this, xs[..|xs| - 1])
    {
      count := count - 1;
    }
  }

  // ---- chains of chunks ------------------------------------------------------------------------

  ghost function After(cs: seq<Chunk>, i: nat): Chunk?
    requires i < |cs|
  {
    if i + 1 < |cs| then cs[i + 1] else null
  }

  ghost function Before(cs: seq<Chunk>, i: nat): Chunk?
    requires i < |cs|
  {
    if i > 0 then cs[i - 1] else null
  }

  /** Distinct chunks with buffers of their own, each holding the given items. */
  ghost predicate Hold(cs: seq<Chunk>, items: seq<seq<Entry>>)
    reads cs`count, set c | c in cs :: c.stack
  {
    && |cs| == |items|
    && (forall i, j | 0 <= i < j < |cs| :: cs[i] != cs[j] && cs[i].stack != cs[j].stack)
    && (forall i | 0 <= i < |cs| :: Item(cs[i], items[i]))
  }

  ghost predicate Item(c: Chunk, xs: seq<Entry>)
    reads c`count, c.stack
  {
    c.stack.Length == MAX && c.count == |xs| <= MAX && c.stack[..c.count] == xs
  }

  ghost predicate Linked(cs: seq<Chunk>)
    reads cs`next, cs`pre
  {
    && (forall i {:trigger After(cs, i)} | 0 <= i < |cs| :: cs[i].next == After(cs, i))
    && (forall i {:trigger Before(cs, i)} | 0 <= i < |cs| :: cs[i].pre == Before(cs, i))
  }

  ghost function Concat(items: seq<seq<Entry>>): seq<Entry> {
    if items == [] then [] else Concat(items[..|items| - 1]) + items[|items| - 1]
  }

  lemma ConcatAppend(a: seq<seq<Entry>>, b: seq<seq<Entry>>)
    ensures Concat(a + b) == Concat(a) + Concat(b)
  {
    if b == [] {
      assert a + b == a;
    } else {
      ConcatAppend(a, b[..|b| - 1]);
      assert (a + b)[..|a + b| - 1] == a + b[..|b| - 1];
    }
  }

  lemma ConcatLast(a: seq<seq<Entry>>, xs: seq<Entry>)
    ensures Concat(a + [xs]) == Concat(a) + xs
  {
    assert (a + [xs])[..|a|] == a;
  }

  lemma HoldLast(cs: seq<Chunk>, items: seq<seq<Entry>>)
    requires cs != [] && |items| == |cs| && Item(cs[|cs| - 1], items[|cs| - 1])
    requires forall i, j | 0 <= i < j < |cs| :: cs[i] != cs[j] && cs[i].stack != cs[j].stack
    requires forall i | 0 <= i < |cs| - 1 :: Item(cs[i], items[i])
    ensures Hold(cs, items)
  {
  }

  lemma HoldSplit(cs: seq<Chunk>, items: seq<seq<Entry>>, k: nat)
    requires Hold(cs, items) && k <= |cs|
    ensures Hold(cs[..k], items[..k]) && Hold(cs[k..], items[k..])
  {
  }

  ghost predicate Apart(fs: seq<Chunk>, gs: seq<Chunk>) {
    forall i, j | 0 <= i < |fs| && 0 <= j < |gs| :: fs[i] != gs[j] && fs[i].stack != gs[j].stack
  }

  lemma HoldJoin(fs: seq<Chunk>, xs: seq<seq<Entry>>, gs: seq<Chunk>, ys: seq<seq<Entry>>)
    requires Hold(fs, xs) && Hold(gs, ys) && Apart(fs, gs)
    ensures Hold(fs + gs, xs + ys)
  {
    var cs := fs + gs;
    forall i, j | 0 <= i < j < |cs| ensures cs[i] != cs[j] && cs[i].stack != cs[j].stack {
      if i < |fs| <= j {
        assert fs[i] != gs[j - |fs|];
      }
    }
  }

  /** Link one chain behind another. */
  method Join(ghost fs: seq<Chunk>, ghost gs: seq<Chunk>, last: Chunk, first: Chunk)
    requires Linked(fs) && Linked(gs) && fs != [] && gs != [] && last == fs[|fs| - 1] && first == gs[0]
    requires Unique(fs + gs)
    modifies last`next, first`pre
    ensures Linked(fs + gs)
  {
    last.next := first;
    first.pre := last;
    ghost var cs := fs + gs;
    assert cs[|fs| - 1] == last && cs[|fs|] == first;
    forall i | 0 <= i < |cs| ensures cs[i].next == After(cs, i) && cs[i].pre == Before(cs, i) {
      if i < |fs| {
        assert old(fs[i].next) == After(fs, i) && old(fs[i].pre) == Before(fs, i) && fs[i] == cs[i];
      } else {
        var j := i - |fs|;
        assert old(gs[j].next) == After(gs, j) && old(gs[j].pre) == Before(gs, j) && gs[j] == cs[i];
      }
    }
  }

  ghost predicate Unique(cs: seq<Chunk>) {
    forall i, j | 0 <= i < j < |cs| :: cs[i] != cs[j]
  }

  lemma WholeChain(cs: seq<Chunk>)
    requires Linked(cs)
    ensures Linked(cs[..|cs|]) && Linked(cs[|cs|..])
  {
    assert cs[..|cs|] == cs;
  }

  /** Separate the first `k` chunks of a chain from the rest. */
  method Cut(ghost cs: seq<Chunk>, ghost k: nat, last: Chunk, first: Chunk?)
    requires Linked(cs) && Unique(cs) && 0 < k <= |cs| && last == cs[k - 1] && first == After(cs, k - 1)
    modifies last`next, (if first == null then {} else {first})`pre
    ensures Linked(cs[..k]) && Linked(cs[k..])
  {
    if first != null {
      first.pre := null;
    }
    last.next := null;
    ghost var fs, gs := cs[..k], cs[k..];
    forall i | 0 <= i < |fs| ensures fs[i].next == After(fs, i) && fs[i].pre == Before(fs, i) {
      assert old(cs[i].next) == After(cs, i) && old(cs[i].pre) == Before(cs, i);
    }
    forall i | 0 <= i < |gs| ensures gs[i].next == After(gs, i) && gs[i].pre == Before(gs, i) {
      assert old(cs[i + k].next) == After(cs, i + k) && old(cs[i + k].pre) == Before(cs, i + k);
    }
  }

  // ---- the stack -------------------------------------------------------------------------------

  class Stack {
    var h: Chunk?
    var t: Chunk?
    var s: nat

    ghost var chunks: seq<Chunk>
    ghost var items: seq<seq<Entry>>

    ghost predicate Body()
      reads this, chunks, set c | c in chunks :: c.stack
    {
      Hold(chunks, items) && Linked(chunks)
    }

    /** Ends and chunk count, and the links and items, sealed. */
    ghost predicate Shape()
      reads this, chunks, set c | c in chunks :: c.stack
    {
      && s == |chunks| == |items|
      && h == (if chunks == [] then null else chunks[0])
      && t == (if chunks == [] then null else chunks[|chunks| - 1])
      && forall k: nat :: Opens(k) ==> Body()
    }

    lemma Open()
      requires Shape()
      ensures Body()
    {
      assert Opens(0);
    }

    /** Links, ends and chunk count are right, and no chunk is empty. */
    ghost predicate Valid()
      reads this, chunks, set c | c in chunks :: c.stack
    {
      Shape() && forall i | 0 <= i < |items| :: items[i] != []
    }

    ghost function Contents(): seq<Entry>
      reads this
    {
      Concat(items)
    }

    constructor ()
      ensures Valid() && Contents() == [] && chunks == []
    {
      h, t, s := null, null, 0;
      chunks, items := [], [];
    }

    /** A stack of the chunks of a chain, found by walking it. */
    constructor FromChain(buf: Chunk?, ghost cs: seq<Chunk>, ghost xs: seq<seq<Entry>>)
      requires Linked(cs) && Hold(cs, xs) && buf == (if cs == [] then null else cs[0])
      requires forall i | 0 <= i < |xs| :: xs[i] != []
      ensures Valid() && chunks == cs && items == xs
    {
      h := buf;
      var tail, n := Walk(buf, cs);
      t, s := tail, n;
      chunks, items := cs, xs;
    }

    method Install(first: Chunk?, last: Chunk?, n: nat, ghost cs: seq<Chunk>, ghost xs: seq<seq<Entry>>)
      requires Linked(cs) && Hold(cs, xs) && n == |cs|
      requires first == (if cs == [] then null else cs[0]) && last == (if cs == [] then null else cs[|cs| - 1])
      modifies this
      ensures Shape() && chunks == cs && items == xs
    {
      h, t, s := first, last, n;
      chunks, items := cs, xs;
    }

    method Push(buf: Chunk)
      requires Shape() && Apart(chunks, [buf]) && Item(buf, []) && buf.next == null && buf.pre == null
      modifies this, buf`pre, (set c | c in chunks)`next
      ensures Shape() && chunks == old(chunks) + [buf] && items == old(items) + [[]] && t == buf
    {
      Open();
      assert Linked([buf]);
      HoldJoin(chunks, items, [buf], [[]]);
      if s == 0 && h == null && t == null {
        assert chunks + [buf] == [buf] && items + [[]] == [[]];
        Install(buf, buf, s + 1, [buf], [[]]);
      } else {
        Join(chunks, [buf], t, buf);
        Install(h, buf, s + 1, chunks + [buf], items + [[]]);
      }
    }
  
    /** Store in the last chunk, which has room. */
    method Append(v: Entry)
      requires Shape() && chunks != [] && |items[|items| - 1]| < MAX
      modifies this`items, t`count, t.stack
      ensures Shape() && items == old(items)[..|items| - 1] + [old(items)[|items| - 1] + [v]]
    {
      Open();
      ghost var n := |chunks|;
      ghost var xs := items[n - 1];
      assert Item(chunks[n - 1], xs);
      t.PushBack(v, xs);
      items := items[..n - 1] + [xs + [v]];
      HoldLast(chunks, items);
      assert Body();
    }

    /** Remove from the last chunk. */
    method Shorten()
      requires Shape() && chunks != [] && items[|items| - 1] != []
      modifies this`items, t`count
      ensures Shape() && var xs := old(items)[|items| - 1]; items == old(items)[..|items| - 1] + [xs[..|xs| - 1]]
    {
      Open();
      ghost var n := |chunks|;
      ghost var xs := items[n - 1];
      assert Item(chunks[n - 1], xs);
      t.PopBack(xs);
      items := items[..n - 1] + [xs[..|xs| - 1]];
      HoldLast(chunks, items);
    }

    /** Make sure the last chunk has room. */
    method Room()
      requires Shape()
      modifies this, (set c | c in chunks)`next
      ensures Shape() && chunks != [] && |items[|items| - 1]| < MAX
      ensures old(chunks) != [] && |old(items)[|old(items)| - 1]| < MAX ==> chunks == old(chunks)
      ensures (chunks == old(chunks) && items == old(items))
        || (items == old(items) + [[]] && chunks == old(chunks) + [t] && fresh(t) && fresh(t.stack))
    {
      Open();
      assert chunks != [] ==> Item(chunks[|chunks| - 1], items[|chunks| - 1]);
      if t == null || t.count == MAX {
        var buf := new Chunk();
        Push(buf);
      }
    }

    method PushBack(v: Entry)
      requires Valid()
      modifies this, chunks, set c | c in chunks :: c.stack
      ensures Valid() && Contents() == old(Contents()) + [v]
      ensures old(chunks) != [] && |old(items)[|old(items)| - 1]| < MAX ==> chunks == old(chunks)
      ensures old(chunks) <= chunks && forall c <- chunks[|old(chunks)|..] :: fresh(c) && fresh(c.stack)
    {
      Room();
      ghost var before := items;
      Append(v);
      Added(old(items), before, items, v);
    }

    method Back() returns (v: Entry)
      requires Valid()
      ensures Contents() == [] ==> v == 0
      ensures Contents() != [] ==> v == Contents()[|Contents()| - 1]
    {
      Open();
      if t == null {
        return 0;
      }
      ghost var n := |chunks|;
      assert Item(chunks[n - 1], items[n - 1]);
      return t.stack[t.count - 1];
    }

    /** Take the last chunk off, if there is one. */
    method Pop() returns (res: Chunk?)
      requires Shape()
      modifies this, (set c | c in chunks)`next, (set c | c in chunks)`pre
      ensures Shape() && res == old(t) && (res == null <==> old(chunks) == [])
      ensures res == null ==> chunks == [] && items == []
      ensures res != null ==> chunks == old(chunks)[..|old(chunks)| - 1] && items == old(items)[..|old(items)| - 1]
    {
      if s == 0 && h == null && t == null {
        return null;
      }
      Open();
      ghost var n := |chunks|;
      assert chunks[n - 1].pre == Before(chunks, n - 1);
      res := t;
      var last := t.pre;
      HoldSplit(chunks, items, n - 1);
      if last != null {
        Detach(chunks, n - 1, last, res);
        Install(h, last, s - 1, chunks[..n - 1], items[..n - 1]);
      } else {
        res.pre := null;
        Install(null, null, s - 1, chunks[..n - 1], items[..n - 1]);
      }
    }

    /** Remove the last entry, and the last chunk with it if that was its only one. */
    method PopBack()
      requires Valid() && Contents() != []
      modifies this, chunks
      ensures Valid() && Contents() == old(Contents())[..|old(Contents())| - 1]
    {
      Shorten();
      DropEmpty();
      Removed(old(items), items);
    }

    method DropEmpty()
      requires Shape() && chunks != []
      modifies this, (set c | c in chunks)`next, (set c | c in chunks)`pre
      ensures Shape()
      ensures items == if old(items)[|old(items)| - 1] == [] then old(items)[..|old(items)| - 1] else old(items)
    {
      Open();
      assert Item(chunks[|chunks| - 1], items[|chunks| - 1]);
      if t.count == 0 {
        var tmp := Pop();
      }
    }

    /** Append the other stack's chunks and leave it empty. */
    method Insert(other: Stack)
      requires Valid() && other.Valid() && other != this && Apart(chunks, other.chunks)
      modifies this, other, chunks, other.chunks
      ensures Valid() && Contents() == old(Contents()) + old(other.Contents())
      ensures other.Valid() && other.Contents() == [] && chunks == old(chunks) + old(other.chunks)
    {
      if other.s == 0 {
        assert other.chunks == [] && other.items == [];
        NothingMore(chunks, items);
      } else {
        InsertSome(other);
        ConcatAppend(old(items), old(other.items));
      }
    }

    method InsertSome(other: Stack)
      requires Shape() && other.Shape() && other != this && Apart(chunks, other.chunks) && other.chunks != []
      modifies this, other, chunks, other.chunks
      ensures Shape() && chunks == old(chunks) + old(other.chunks) && items == old(items) + old(other.items)
      ensures other.Valid() && other.chunks == [] && other.items == []
    {
      if h == null {
        Adopt(other);
      } else {
        Merge(other);
      }
      other.Clean();
    }

    method Adopt(other: Stack)
      requires other.Shape() && other != this
      modifies this
      ensures Shape() && chunks == other.chunks && items == other.items
    {
      other.Open();
      Install(other.h, other.t, other.s, other.chunks, other.items);
    }

    method Merge(other: Stack)
      requires Shape() && other.Shape() && other != this && Apart(chunks, other.chunks) && chunks != []
      requires other.chunks != []
      modifies this, (set c | c in chunks)`next, (set c | c in other.chunks)`pre
      ensures Shape() && chunks == old(chunks) + other.chunks && items == old(items) + other.items
    {
      Open();
      other.Open();
      HoldJoin(chunks, items, other.chunks, other.items);
      Join(chunks, other.chunks, t, other.h);
      Install(h, other.t, s + other.s, chunks + other.chunks, items + other.items);
    }

    /** Hand out the first `n` chunks, or all if there are fewer; the rest stays, in order. */
    method Split(n: nat) returns (res: Chunk?, ghost taken: seq<Chunk>, ghost xs: seq<seq<Entry>>)
      requires Valid()
      modifies this, (set c | c in chunks)`next, (set c | c in chunks)`pre
      ensures Divided(old(chunks), old(items), n, taken, xs, chunks, items)
      ensures Linked(taken) && Hold(taken, xs) && res == (if taken == [] then null else taken[0])
      ensures Valid() && Concat(xs) + Contents() == old(Contents())
    {
      if n == 0 || s == 0 {
        assert Linked([]) && Hold([], []);
        return null, [], [];
      }
      res := h;
      ghost var cs, ys := chunks, items;
      ghost var k;
      k := Advance(n);
      taken, xs := cs[..k], ys[..k];
      ConcatAppend(xs, items);
      assert xs + items == ys;
    }

    method Advance(n: nat) returns (ghost k: nat)
      requires Shape() && n > 0 && chunks != []
      modifies this, (set c | c in chunks)`next, (set c | c in chunks)`pre
      ensures k == (if n < |old(chunks)| then n else |old(chunks)|)
      ensures chunks == old(chunks)[k..] && items == old(items)[k..] && Shape()
      ensures Linked(old(chunks)[..k]) && Hold(old(chunks)[..k], old(items)[..k])
    {
      Open();
      ghost var cs, ys := chunks, items;
      var last, next, num := Step(h, n, cs);
      HoldSplit(cs, ys, num);
      k := num;
      if num == n {
        Cut(cs, num, last, next);
      } else {
        WholeChain(cs);
      }
      Install(next, if next == null then null else t, s - num, cs[k..], ys[k..]);
    }

    method Clean()
      modifies this
      ensures Valid() && Contents() == [] && chunks == [] && items == []
    {
      h, t, s := null, null, 0;
      chunks, items := [], [];
    }
  }

  /** Walk over the first `n` chunks of a chain, or all if there are fewer. */
  method Step(h: Chunk?, n: nat, ghost cs: seq<Chunk>) returns (last: Chunk, next: Chunk?, num: nat)
    requires Linked(cs) && cs != [] && h == cs[0] && n > 0
    ensures num == (if n < |cs| then n else |cs|) && last == cs[num - 1] && next == After(cs, num - 1)
  {
    last, num := h, 1;
    assert cs[0].next == After(cs, 0);
    next := h.next;
    while num < n && next != null
      invariant 1 <= num <= n && num <= |cs| && last == cs[num - 1] && next == After(cs, num - 1)
    {
      last := next;
      assert cs[num].next == After(cs, num);
      next := next.next;
      num := num + 1;
    }
  }

  /** Find the last chunk of a chain and count its chunks. */
  method Walk(buf: Chunk?, ghost cs: seq<Chunk>) returns (tail: Chunk?, n: nat)
    requires Linked(cs) && buf == (if cs == [] then null else cs[0])
    ensures n == |cs| && tail == (if cs == [] then null else cs[|cs| - 1])
  {
    var tmp := buf;
    tail, n := null, 0;
    while tmp != null
      invariant n <= |cs| && tmp == (if n < |cs| then cs[n] else null)
      invariant n == |cs| && n > 0 ==> tail == cs[n - 1]
      invariant n == 0 ==> tail == null
      decreases |cs| - n
    {
      assert cs[n].next == After(cs, n);
      if tmp.next == null {
        tail := tmp;
      }
      n := n + 1;
      tmp := tmp.next;
    }
  }

  /** Separate the last chunk from the chain. */
  method Detach(ghost cs: seq<Chunk>, ghost k: nat, last: Chunk, first: Chunk)
    requires Linked(cs) && Unique(cs) && 0 < k == |cs| - 1 && last == cs[k - 1] && first == cs[k]
    modifies last`next, first`pre
    ensures Linked(cs[..k])
  {
    last.next := null;
    first.pre := null;
    ghost var fs := cs[..k];
    forall i | 0 <= i < |fs| ensures fs[i].next == After(fs, i) && fs[i].pre == Before(fs, i) {
      assert old(cs[i].next) == After(cs, i) && old(cs[i].pre) == Before(cs, i);
    }
  }

  /** The first `n` chunks were taken, or all if there were fewer; the rest is what is left. */
  ghost predicate Divided(cs: seq<Chunk>, ys: seq<seq<Entry>>, n: nat,
                          taken: seq<Chunk>, xs: seq<seq<Entry>>, left: seq<Chunk>, zs: seq<seq<Entry>>)
  {
    && cs == taken + left && ys == xs + zs && |taken| == |xs|
    && |taken| == if n < |cs| then n else |cs|
  }

  lemma NothingMore(cs: seq<Chunk>, items: seq<seq<Entry>>)
    ensures cs + [] == cs && items + [] == items && Concat(items) + [] == Concat(items)
  {
  }

  /** Storing in the last chunk, new or not, adds the entry at the end. */
  lemma Added(was: seq<seq<Entry>>, before: seq<seq<Entry>>, now: seq<seq<Entry>>, v: Entry)
    requires (before == was || before == was + [[]]) && before != []
    requires now == before[..|before| - 1] + [before[|before| - 1] + [v]]
    ensures Concat(now) == Concat(was) + [v]
  {
    var n := |before|;
    assert before == before[..n - 1] + [before[n - 1]];
    ConcatLast(before[..n - 1], before[n - 1]);
    ConcatLast(before[..n - 1], before[n - 1] + [v]);
    ConcatLast(was, []);
  }

  lemma Removed(was: seq<seq<Entry>>, now: seq<seq<Entry>>)
    requires was != [] && was[|was| - 1] != []
    requires var xs := was[|was| - 1];
      now == if |xs| == 1 then was[..|was| - 1] else was[..|was| - 1] + [xs[..|xs| - 1]]
    ensures Concat(was) != [] && Concat(now) == Concat(was)[..|Concat(was)| - 1]
  {
    var n := |was|;
    var xs := was[n - 1];
    assert was == was[..n - 1] + [xs];
    ConcatLast(was[..n - 1], xs);
    ConcatLast(was[..n - 1], xs[..|xs| - 1]);
  }
}
