/** The circular doubly linked list of spans with a header node (SpanList in runtime/src/Common/MemCommon.h),
    proved to be the sequence of span ids that the central cache works on. */
module SpanList {

  import CentralCache

  class Span {
    const id: CentralCache.Id
    var next: Span?
    var prev: Span?
    var freeBlocks: CentralCache.Addr

    constructor (id: CentralCache.Id)
      ensures this.id == id
    {
      this.id := id;
      next, prev, freeBlocks := null, null, 0;
    }
  }

  datatype Link = Link(next: Span?, prev: Span?)

  type Links = map<Span, Link>

  ghost function LinksOf(spans: set<Span>): Links
    reads spans
  {
    map s | s in spans :: Link(s.next, s.prev)
  }

  ghost function Members(ring: seq<Span>): set<Span> {
    set s | s in ring
  }

  ghost predicate LinkAt(ring: seq<Span>, links: Links, i: nat)
    requires i < |ring|
  {
    ring[i] in links && links[ring[i]] == Link(After(ring, i), Before(ring, i))
  }

  ghost predicate NoRepeats(ring: seq<Span>) {
    forall i, j | 0 <= i < j < |ring| :: ring[i] != ring[j]
  }

  /** `ring` starts with the header and closes on it. */
  ghost predicate Linked(ring: seq<Span>, links: Links) {
    ring != [] && NoRepeats(ring) && forall i | 0 <= i < |ring| :: LinkAt(ring, links, i)
  }

  ghost function After(ring: seq<Span>, i: nat): Span
    requires i < |ring|
  {
    if i + 1 < |ring| then ring[i + 1] else ring[0]
  }

  ghost function Before(ring: seq<Span>, i: nat): Span
    requires i < |ring|
  {
    if i > 0 then ring[i - 1] else ring[|ring| - 1]
  }

  ghost function With(ring: seq<Span>, k: nat, n: Span): seq<Span>
    requires k < |ring|
  {
    ring[..k + 1] + [n] + ring[k + 1..]
  }

  /** The links after `n` was put between `prev` and `pos`. */
  ghost predicate Spliced(ring: seq<Span>, prev: Span, pos: Span, n: Span, v: Links, w: Links) {
    && n in w && w[n] == Link(pos, prev)
    && forall s <- ring :: s in v && s in w && w[s] == Link(if s == prev then n else v[s].next, if s == pos then n
        else v[s].prev)
  }

  /** Setting four pointers puts `n` after place `k`. */
  lemma Inserted(ring: seq<Span>, k: nat, n: Span, v: Links, w: Links)
    requires Linked(ring, v) && k < |ring| && n !in ring && Spliced(ring, ring[k], After(ring, k), n, v, w)
    ensures Linked(With(ring, k, n), w)
  {
    var r := With(ring, k, n);
    forall i | 0 <= i < |r| ensures LinkAt(r, w, i) {
      InsertedAt(ring, k, n, v, w, i);
    }
  }

  lemma InsertedAt(ring: seq<Span>, k: nat, n: Span, v: Links, w: Links, i: nat)
    requires Linked(ring, v) && k < |ring| && n !in ring && Spliced(ring, ring[k], After(ring, k), n, v, w)
    requires i < |With(ring, k, n)|
    ensures LinkAt(With(ring, k, n), w, i)
  {
    var r := With(ring, k, n);
    if i != k + 1 {
      var o := if i <= k then i else i - 1;
      assert r[i] == ring[o] && ring[o] in ring;
      assert LinkAt(ring, v, o);
    }
  }

  ghost function WithoutPlace(ring: seq<Span>, k: nat): seq<Span>
    requires k < |ring|
  {
    ring[..k] + ring[k + 1..]
  }

  /** The links after `prev` and `pos` were joined, for all but the span between them. */
  ghost predicate Joined(ring: seq<Span>, prev: Span, gone: Span, pos: Span, v: Links, w: Links) {
    forall s <- ring :: s != gone ==>
      s in v && s in w && w[s] == Link(if s == prev then pos else v[s].next, if s == pos then prev else v[s].prev)
  }

  /** Setting two pointers takes place `k` out. */
  lemma Erased(ring: seq<Span>, k: nat, v: Links, w: Links)
    requires Linked(ring, v) && 1 <= k < |ring| && Joined(ring, ring[k - 1], ring[k], After(ring, k), v, w)
    ensures Linked(WithoutPlace(ring, k), w)
  {
    var r := WithoutPlace(ring, k);
    forall i | 0 <= i < |r| ensures LinkAt(r, w, i) {
      ErasedAt(ring, k, v, w, i);
    }
  }

  lemma ErasedAt(ring: seq<Span>, k: nat, v: Links, w: Links, i: nat)
    requires Linked(ring, v) && 1 <= k < |ring| && Joined(ring, ring[k - 1], ring[k], After(ring, k), v, w)
    requires i < |WithoutPlace(ring, k)|
    ensures LinkAt(WithoutPlace(ring, k), w, i)
  {
    var r := WithoutPlace(ring, k);
    var o := if i < k then i else i + 1;
    assert r[i] == ring[o] && ring[o] in ring;
    assert LinkAt(ring, v, o);
  }

  ghost function Ids(spans: seq<Span>): seq<CentralCache.Id> {
    seq(|spans|, i requires 0 <= i < |spans| => spans[i].id)
  }

  ghost predicate DistinctIds(spans: seq<Span>) {
    forall i, j | 0 <= i < j < |spans| :: spans[i].id != spans[j].id
  }

  class List {
    const head: Span

    /** The spans in order, without the header. */
    ghost var spans: seq<Span>

    ghost function Ring(): seq<Span>
      reads this
    {
      [head] + spans
    }

    ghost predicate Valid()
      reads this, head, spans
    {
      Linked(Ring(), LinksOf(Members(Ring())))
    }

    constructor ()
      ensures Valid() && spans == [] && fresh(head)
    {
      var h := new Span(0);
      head := h;
      spans := [];
      new;
      head.prev, head.next := head, head;
    }

    /** Insert before the `k`-th span; before the header is at the end. */
    method Insert(pos: Span, newSpan: Span, ghost k: nat)
      requires Valid() && k <= |spans| && pos == After(Ring(), k) && newSpan !in Ring()
      modifies this`spans, Ring(), newSpan
      ensures Valid() && spans == old(spans)[..k] + [newSpan] + old(spans)[k..] && Kept(Members(Ring()))
    {
      ghost var ring, v := Ring(), LinksOf(Members(Ring()));
      Around(ring, k, v);
      Splice(pos, newSpan, ring);
      spans := spans[..k] + [newSpan] + spans[k..];
      RingWith(head, old(spans), k, newSpan);
      Inserted(ring, k, newSpan, v, LinksOf(Members(ring) + {newSpan}));
    }

    method PushFront(span: Span)
      requires Valid() && span !in Ring()
      modifies this`spans, Ring(), span
      ensures Valid() && spans == [span] + old(spans) && Ids(spans) == [span.id] + Ids(old(spans))
      ensures Kept(Members(Ring()))
    {
      Around(Ring(), 0, LinksOf(Members(Ring())));
      Insert(head.next, span, 0);
    }

    /** Unlink a span. With distinct ids, the ids lose exactly its own. */
    method Erase(pos: Span, ghost k: nat)
      requires Valid() && k < |spans| && pos == spans[k]
      modifies this`spans, Ring()
      ensures Valid() && spans == old(spans)[..k] + old(spans)[k + 1..] && Kept(Members(old(Ring())))
      ensures DistinctIds(old(spans)) ==> Ids(spans) == CentralCache.Without(Ids(old(spans)), pos.id)
    {
      TakeOut(pos, k);
      if DistinctIds(old(spans)) {
        ErasedIds(old(spans), k);
      }
    }

    method TakeOut(pos: Span, ghost k: nat)
      requires Valid() && k < |spans| && pos == spans[k]
      modifies this`spans, Ring()
      ensures Valid() && spans == old(spans)[..k] + old(spans)[k + 1..] && Kept(Members(old(Ring())))
    {
      ghost var ring, v := Ring(), LinksOf(Members(Ring()));
      Between(head, spans, k, v);
      Unlink(pos, ring);
      spans := spans[..k] + spans[k + 1..];
      Removed(head, old(spans), k, v, LinksOf(Members(ring) - {pos}));
    }

    method Empty() returns (r: bool)
      requires Valid()
      ensures r <==> spans == []
    {
      Around(Ring(), 0, LinksOf(Members(Ring())));
      return head.next == head;
    }

    method PopFront() returns (ret: Span)
      requires Valid() && spans != []
      modifies this`spans, Ring()
      ensures Valid() && ret == old(spans)[0] && spans == old(spans)[1..] && Kept(Members(old(Ring())))
    {
      Around(Ring(), 0, LinksOf(Members(Ring())));
      ret := head.next;
      Erase(ret, 0);
    }

    /** The walk from the first span to the header: the first span with a free block. */
    method FirstFree() returns (r: Span?)
      requires Valid()
      ensures r == null ==> NoneFree(spans, |spans|)
      ensures r != null ==> exists k | 0 <= k < |spans| :: spans[k] == r && r.freeBlocks != 0 && NoneFree(spans, k)
    {
      ghost var ring, v := Ring(), LinksOf(Members(Ring()));
      ghost var k := 0;
      Around(ring, 0, v);
      var it := head.next;
      while it != head
        invariant k <= |spans| && it == After(ring, k) && NoneFree(spans, k)
        decreases |spans| - k
      {
        assert it == spans[k];
        if it.freeBlocks != 0 {
          return it;
        }
        Around(ring, k + 1, v);
        it := it.next;
        k := k + 1;
      }
      return null;
    }
  }

  ghost predicate NoneFree(spans: seq<Span>, k: nat)
    requires k <= |spans|
    reads spans
  {
    forall i | 0 <= i < k :: spans[i].freeBlocks == 0
  }

  /** Nothing but links changed. */
  twostate predicate Kept(spans: set<Span>)
    reads spans
  {
    forall s <- spans :: s.freeBlocks == old(s.freeBlocks)
  }

  method Splice(pos: Span, newSpan: Span, ghost ring: seq<Span>)
    requires pos in ring && pos.prev != null && pos.prev in ring && newSpan !in ring
    modifies ring, newSpan
    ensures Spliced(ring, old(pos.prev), pos, newSpan, old(LinksOf(Members(ring))), LinksOf(Members(ring) + {newSpan}))
    ensures Kept(Members(ring) + {newSpan})
  {
    var prev := pos.prev;
    prev.next := newSpan;
    newSpan.prev := prev;
    newSpan.next := pos;
    pos.prev := newSpan;
  }

  method Unlink(pos: Span, ghost ring: seq<Span>)
    requires pos in ring && pos.prev != null && pos.next != null && pos.prev in ring && pos.next in ring
    requires pos.prev != pos && pos.next != pos
    modifies ring
    ensures Joined(ring, old(pos.prev), pos, old(pos.next), old(LinksOf(Members(ring))), LinksOf(Members(ring) - {pos}))
    ensures Kept(Members(ring))
  {
    var prev := pos.prev;
    var next := pos.next;
    prev.next := next;
    next.prev := prev;
  }

  lemma RingWith(head: Span, spans: seq<Span>, k: nat, n: Span)
    requires k <= |spans|
    ensures var ring := [head] + spans;
      && [head] + (spans[..k] + [n] + spans[k..]) == With(ring, k, n)
      && Members(With(ring, k, n)) == Members(ring) + {n}
  {
    var ring := [head] + spans;
    assert ring[..k + 1] == [head] + spans[..k] && ring[k + 1..] == spans[k..];
    assert ring == ring[..k + 1] + ring[k + 1..];
  }

  lemma RingWithout(head: Span, spans: seq<Span>, k: nat)
    requires k < |spans| && NoRepeats([head] + spans)
    ensures var ring := [head] + spans;
      && [head] + (spans[..k] + spans[k + 1..]) == WithoutPlace(ring, k + 1)
      && Members(WithoutPlace(ring, k + 1)) == Members(ring) - {spans[k]}
  {
    var ring := [head] + spans;
    assert ring[..k + 1] == [head] + spans[..k] && ring[k + 2..] == spans[k + 1..];
    assert ring == ring[..k + 1] + [spans[k]] + ring[k + 2..];
    var r := WithoutPlace(ring, k + 1);
    forall i | 0 <= i < |r| ensures r[i] != spans[k] {
      assert r[i] == ring[if i < k + 1 then i else i + 1] && spans[k] == ring[k + 1];
    }
  }

  lemma Removed(head: Span, spans: seq<Span>, k: nat, v: Links, w: Links)
    requires k < |spans| && Linked([head] + spans, v)
    requires var ring := [head] + spans; Joined(ring, ring[k], spans[k], After(ring, k + 1), v, w)
    ensures var r := [head] + (spans[..k] + spans[k + 1..]);
      Linked(r, w) && Members(r) == Members([head] + spans) - {spans[k]}
  {
    RingWithout(head, spans, k);
    Erased([head] + spans, k + 1, v, w);
  }

  /** The links of a span, which is not the header. */
  lemma Between(head: Span, spans: seq<Span>, k: nat, v: Links)
    requires k < |spans| && Linked([head] + spans, v)
    ensures var ring := [head] + spans; var pos := spans[k];
      && pos in v && v[pos] == Link(After(ring, k + 1), ring[k])
      && After(ring, k + 1) in ring && ring[k] in ring && pos in ring && ring[k] != pos && After(ring, k + 1) != pos
  {
    var ring := [head] + spans;
    assert LinkAt(ring, v, k + 1) && ring[k + 1] == spans[k];
  }

  /** The links around place `k`. */
  lemma Around(ring: seq<Span>, k: nat, v: Links)
    requires Linked(ring, v) && k < |ring|
    ensures ring[k] in v && v[ring[k]].next == After(ring, k)
    ensures After(ring, k) in v && v[After(ring, k)].prev == ring[k]
    ensures |ring| > 1 ==> After(ring, k) != ring[k]
  {
    var j := if k + 1 < |ring| then k + 1 else 0;
    assert After(ring, k) == ring[j] && Before(ring, j) == ring[k];
    assert LinkAt(ring, v, k) && LinkAt(ring, v, j);
  }

  lemma ErasedIds(spans: seq<Span>, k: nat)
    requires k < |spans| && DistinctIds(spans)
    ensures Ids(spans[..k] + spans[k + 1..]) == CentralCache.Without(Ids(spans), spans[k].id)
  {
    var ids := Ids(spans);
    WithoutAt(ids, k);
    assert Ids(spans[..k] + spans[k + 1..]) == ids[..k] + ids[k + 1..];
  }

  lemma {:induction false} WithoutAt(ids: seq<CentralCache.Id>, k: nat)
    requires k < |ids| && CentralCache.Distinct(ids)
    ensures CentralCache.Without(ids, ids[k]) == ids[..k] + ids[k + 1..]
  {
    if k == 0 {
      WithoutNone(ids[1..], ids[0]);
    } else {
      assert CentralCache.Distinct(ids[1..]);
      WithoutAt(ids[1..], k - 1);
      assert ids[..k] + ids[k + 1..] == [ids[0]] + (ids[1..][..k - 1] + ids[1..][k..]);
    }
  }

  lemma {:induction false} WithoutNone(ids: seq<CentralCache.Id>, x: CentralCache.Id)
    requires x !in ids
    ensures CentralCache.Without(ids, x) == ids
  {
    if ids != [] {
      WithoutNone(ids[1..], x);
    }
  }
}
