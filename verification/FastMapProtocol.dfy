/** Lock-free lookups against inserts, resizes and invalidations of the generic type cache
    (GenericTiDescFastMap in runtime/src/TypeInfoManager.cpp).

    Every atomic load and store is one step. Writers hold the writer mutex from their generation
    check to their last store, so at most one of them is between steps. Tables and entries are
    never freed, and a table is only reachable once it has been stored as the active one. */
module FastMapProtocol {

  import opened Common
  import FastMap

  type Key = FastMap.Key

  type Desc = FastMap.Desc

  type Entry = FastMap.Entry

  /** `era` is history: the generation whose inserts fill the table. */
  datatype Table = Table(slots: seq<Option<Entry>>, era: nat)

  /** A call of Get for `key` that observed generation `seen`; `t` is the table it loaded. */
  datatype Reader =
    | Started(key: Key, seen: nat)
    | Probing(key: Key, seen: nat, t: nat, slot: nat, probes: nat)
    | Ending(key: Key, seen: nat, t: nat, hit: Option<Desc>)
    | Returned(key: Key, seen: nat, result: Option<Desc>)

  /** Who holds the writer mutex, and what it has left to store. */
  datatype Writer =
    | Unlocked
    | Storing(entry: Entry, expected: nat)
    | Invalidating

  /** An Insert that stored its entry: its key, its descriptor and the generation it expected. */
  datatype Record = Record(key: Key, desc: Desc, expected: nat)

  type CallId = nat

  /** `hash` is any function of the key; it never changes. */
  datatype State = State(
    hash: Key -> nat,
    tables: seq<Table>,
    active: nat,
    generation: nat,
    writer: Writer,
    readers: map<CallId, Reader>,
    inserted: set<Record>)

  datatype Step =
    | GetStart(c: CallId, key: Key)
    | GetLoadTable(c: CallId)
    | GetProbe(c: CallId)
    | GetEnd(c: CallId)
    | InsertBegin(key: Key, desc: Desc, expected: nat)
    | InsertResize(bigger: seq<Option<Entry>>)
    | InsertStore(slot: nat)
    | InvalidateTable
    | InvalidateGeneration

  function Entries(slots: seq<Option<Entry>>): set<Entry> {
    set i | 0 <= i < |slots| && slots[i].Some? :: slots[i].value
  }

  predicate Holds(slots: seq<Option<Entry>>, key: Key) {
    exists i :: 0 <= i < |slots| && slots[i].Some? && slots[i].value.key == key
  }

  ghost predicate Init(s: State) {
    && |s.tables| == 1 && |s.tables[0].slots| > 0 && s.tables[0].era == 1
    && (forall i :: 0 <= i < |s.tables[0].slots| ==> s.tables[0].slots[i].None?)
    && s.active == 0 && s.generation == 1 && s.writer == Unlocked && s.readers == map[] && s.inserted == {}
  }

  ghost predicate WellFormed(s: State) {
    && s.active < |s.tables|
    && (forall t :: 0 <= t < |s.tables| ==> |s.tables[t].slots| > 0)
    && (forall c :: c in s.readers && s.readers[c].Probing? ==>
          s.readers[c].t < |s.tables| && s.readers[c].slot < |s.tables[s.readers[c].t].slots|)
  }

  /** `slot` is the first empty one on the way from the home of `hash`. */
  ghost predicate FirstEmpty(slots: seq<Option<Entry>>, hash: nat, slot: nat) {
    && slot < |slots| && slots[slot].None?
    && var home := hash % |slots|;
       forall j :: 0 <= j < FastMap.Distance(home, slot, |slots|) ==> slots[FastMap.Around(home, j, |slots|)].Some?
  }

  /** A resized table is any table that holds the same entries where lookups find them, as a resize makes it. */
  ghost predicate Enabled(s: State, step: Step)
    requires WellFormed(s)
  {
    match step
    case GetStart(c, _) => c !in s.readers
    case GetLoadTable(c) => c in s.readers && s.readers[c].Started?
    case GetProbe(c) => c in s.readers && s.readers[c].Probing?
    case GetEnd(c) => c in s.readers && s.readers[c].Ending?
    case InsertBegin(key, _, expected) =>
      s.writer.Unlocked? && s.generation == expected && !Holds(s.tables[s.active].slots, key)
    case InsertResize(bigger) =>
      s.writer.Storing? && |bigger| > 0 && Entries(bigger) == Entries(s.tables[s.active].slots) &&
      FastMap.Placed(bigger, s.hash)
    case InsertStore(slot) => s.writer.Storing? && FirstEmpty(s.tables[s.active].slots, s.writer.entry.hash, slot)
    case InvalidateTable => s.writer.Unlocked?
    case InvalidateGeneration => s.writer.Invalidating?
  }

  ghost function Apply(s: State, step: Step): State
    requires WellFormed(s) && Enabled(s, step)
  {
    match step
    case GetStart(c, key) =>
      s.(readers := s.readers[c := Started(key, s.generation)])
    case GetLoadTable(c) =>
      var Started(key, seen) := s.readers[c];
      s.(readers := s.readers[c := Probing(key, seen, s.active, s.hash(key) % |s.tables[s.active].slots|, 0)])
    case GetProbe(c) =>
      var Probing(key, seen, t, slot, probes) := s.readers[c];
      var slots := s.tables[t].slots;
      var next :=
        if slots[slot].None? then Ending(key, seen, t, None)
        else if slots[slot].value.hash == s.hash(key) && slots[slot].value.key == key then
          Ending(key, seen, t, Some(slots[slot].value.desc))
        else if probes + 1 == |slots| then Ending(key, seen, t, None)
        else Probing(key, seen, t, (slot + 1) % |slots|, probes + 1);
      s.(readers := s.readers[c := next])
    case GetEnd(c) =>
      var Ending(key, seen, t, hit) := s.readers[c];
      s.(readers := s.readers[c := Returned(key, seen, if s.generation == seen then hit else None)])
    case InsertBegin(key, desc, expected) =>
      s.(writer := Storing(FastMap.Entry(s.hash(key), key, desc), expected))
    case InsertResize(bigger) =>
      s.(tables := s.tables + [Table(bigger, s.tables[s.active].era)], active := |s.tables|)
    case InsertStore(slot) =>
      var table := s.tables[s.active];
      s.(tables := s.tables[s.active := table.(slots := table.slots[slot := Some(s.writer.entry)])],
         inserted := s.inserted + {Record(s.writer.entry.key, s.writer.entry.desc, s.writer.expected)},
         writer := Unlocked)
    case InvalidateTable =>
      var empty := seq(|s.tables[s.active].slots|, _ => None);
      s.(tables := s.tables + [Table(empty, s.generation + 1)], active := |s.tables|, writer := Invalidating)
    case InvalidateGeneration =>
      s.(generation := s.generation + 1, writer := Unlocked)
  }

  /** Every stored entry comes from an insert of its table's era, and only eras up to the current
      generation have entries. */
  ghost predicate Sourced(s: State, t: nat)
    requires t < |s.tables|
  {
    forall i :: 0 <= i < |s.tables[t].slots| && s.tables[t].slots[i].Some? ==>
      var e := s.tables[t].slots[i].value;
      Record(e.key, e.desc, s.tables[t].era) in s.inserted && s.tables[t].era <= s.generation
  }

  ghost predicate ReaderOk(s: State, r: Reader) {
    match r
    case Started(_, seen) => seen <= s.generation
    case Probing(_, seen, t, _, _) => t < |s.tables| && seen <= s.tables[t].era
    case Ending(key, seen, t, hit) =>
      t < |s.tables| && seen <= s.tables[t].era &&
      (hit.Some? ==> Record(key, hit.value, s.tables[t].era) in s.inserted && s.tables[t].era <= s.generation)
    case Returned(key, seen, result) => result.Some? ==> Record(key, result.value, seen) in s.inserted
  }

  /** The slots hold this descriptor for this key. */
  ghost predicate Stores(slots: seq<Option<Entry>>, key: Key, desc: Desc) {
    exists i :: 0 <= i < |slots| && slots[i].Some? && slots[i].value.key == key && slots[i].value.desc == desc
  }

  /** What was stored for the current generation is in the active table, until an invalidation replaces that. */
  ghost predicate Present(s: State)
    requires s.active < |s.tables|
  {
    forall rec <- s.inserted ::
      && rec.expected <= s.generation
      && (rec.expected == s.generation && !s.writer.Invalidating? ==>
            Stores(s.tables[s.active].slots, rec.key, rec.desc))
  }

  /** The entry about to be stored is new, with the hash of its key. */
  ghost predicate WriterOk(s: State)
    requires s.active < |s.tables|
  {
    s.writer.Storing? ==>
      && s.writer.expected == s.generation && s.writer.entry.hash == s.hash(s.writer.entry.key)
      && !Holds(s.tables[s.active].slots, s.writer.entry.key)
  }

  /** Entries are where probing from their home finds them. */
  ghost predicate AllPlaced(s: State) {
    forall t :: 0 <= t < |s.tables| ==> FastMap.Placed(s.tables[t].slots, s.hash)
  }

  /** A lookup under way is `probes` slots from the home of its key. */
  ghost predicate OnTheWay(s: State, r: Reader) {
    r.Probing? && r.t < |s.tables| ==>
      var n := |s.tables[r.t].slots|;
      r.probes < n && r.slot == FastMap.Around(s.hash(r.key) % n, r.probes, n)
  }

  ghost predicate Inv(s: State) {
    && WellFormed(s) && WriterOk(s) && AllPlaced(s) && Present(s)
    && s.tables[s.active].era == s.generation + (if s.writer.Invalidating? then 1 else 0)
    && (forall t :: 0 <= t < |s.tables| ==> Sourced(s, t))
    && (forall c :: c in s.readers ==> ReaderOk(s, s.readers[c]) && OnTheWay(s, s.readers[c]))
  }

  lemma InitInv(s: State)
    requires Init(s)
    ensures Inv(s)
  {
  }

  lemma GetInv(s: State, step: Step)
    requires Inv(s) && Enabled(s, step) && (step.GetStart? || step.GetLoadTable? || step.GetProbe? || step.GetEnd?)
    ensures Inv(Apply(s, step))
  {
    var s' := Apply(s, step);
    assert s' == s.(readers := s.readers[step.c := s'.readers[step.c]]);
    if step.GetProbe? {
      ProbedOk(s, step.c);
    }
    ReaderMoved(s, s', step.c);
  }

  lemma ProbedOk(s: State, c: CallId)
    requires Inv(s) && Enabled(s, GetProbe(c))
    ensures var s' := Apply(s, GetProbe(c)); ReaderOk(s', s'.readers[c]) && OnTheWay(s', s'.readers[c])
    ensures var r := Apply(s, GetProbe(c)).readers[c];
      r.Probing? ==> r.t < |s.tables| && r.slot < |s.tables[r.t].slots|
  {
    var r := s.readers[c];
    assert Sourced(s, r.t) && OnTheWay(s, r);
    FastMap.NextSlot(r.slot, |s.tables[r.t].slots|);
  }

  lemma ReaderMoved(s: State, s': State, c: CallId)
    requires Inv(s) && c in s'.readers && s' == s.(readers := s.readers[c := s'.readers[c]])
    requires ReaderOk(s', s'.readers[c]) && OnTheWay(s', s'.readers[c])
    requires var r := s'.readers[c]; r.Probing? ==> r.t < |s.tables| && r.slot < |s.tables[r.t].slots|
    ensures Inv(s')
  {
    forall t | 0 <= t < |s'.tables| ensures Sourced(s', t) { assert Sourced(s, t); }
  }

  lemma SameEntries(a: seq<Option<Entry>>, b: seq<Option<Entry>>, key: Key, desc: Desc)
    requires Entries(a) == Entries(b)
    ensures Stores(a, key, desc) ==> Stores(b, key, desc)
    ensures Holds(b, key) ==> Holds(a, key)
  {
    if i :| 0 <= i < |a| && a[i].Some? && a[i].value.key == key && a[i].value.desc == desc {
      assert a[i].value in Entries(b);
    }
    if i :| 0 <= i < |b| && b[i].Some? && b[i].value.key == key {
      assert b[i].value in Entries(a);
    }
  }

  lemma ResizeInv(s: State, bigger: seq<Option<Entry>>)
    requires Inv(s) && Enabled(s, InsertResize(bigger))
    ensures Inv(Apply(s, InsertResize(bigger)))
  {
    var s' := Apply(s, InsertResize(bigger));
    var old_ := s.tables[s.active];
    forall t | 0 <= t < |s'.tables| ensures Sourced(s', t) {
      if t < |s.tables| {
        assert Sourced(s, t);
      } else {
        ResizedSourced(s, bigger);
      }
    }
    forall rec | rec in s'.inserted && rec.expected == s.generation ensures Stores(bigger, rec.key, rec.desc) {
      SameEntries(old_.slots, bigger, rec.key, rec.desc);
    }
    SameEntries(old_.slots, bigger, s.writer.entry.key, s.writer.entry.desc);
  }

  lemma ResizedSourced(s: State, bigger: seq<Option<Entry>>)
    requires Inv(s) && Enabled(s, InsertResize(bigger))
    ensures Sourced(Apply(s, InsertResize(bigger)), |s.tables|)
  {
    var old_ := s.tables[s.active];
    forall i | 0 <= i < |bigger| && bigger[i].Some?
      ensures Record(bigger[i].value.key, bigger[i].value.desc, old_.era) in s.inserted && old_.era <= s.generation
    {
      assert bigger[i].value in Entries(old_.slots);
      var j :| 0 <= j < |old_.slots| && old_.slots[j].Some? && old_.slots[j].value == bigger[i].value;
      assert Sourced(s, s.active);
    }
  }

  lemma StoreInv(s: State, slot: nat)
    requires Inv(s) && Enabled(s, InsertStore(slot))
    ensures Inv(Apply(s, InsertStore(slot)))
  {
    var s' := Apply(s, InsertStore(slot));
    var slots, e := s.tables[s.active].slots, s.writer.entry;
    StoredPlaced(slots, s.hash, e, slot);
    forall t | 0 <= t < |s'.tables| ensures Sourced(s', t) {
      assert Sourced(s, t);
    }
    forall rec | rec in s'.inserted && rec.expected == s.generation
      ensures Stores(slots[slot := Some(e)], rec.key, rec.desc)
    {
      StoredKept(slots, e, slot, rec);
    }
  }

  lemma StoredPlaced(slots: seq<Option<Entry>>, hash: Key -> nat, e: Entry, slot: nat)
    requires FastMap.Placed(slots, hash) && FirstEmpty(slots, e.hash, slot) && e.hash == hash(e.key)
    requires !Holds(slots, e.key)
    ensures FastMap.Placed(slots[slot := Some(e)], hash)
  {
    var home := e.hash % |slots|;
    FastMap.StoreKeepsPlaced(slots, hash, e, FastMap.Distance(home, slot, |slots|));
  }

  lemma StoredKept(slots: seq<Option<Entry>>, e: Entry, slot: nat, rec: Record)
    requires slot < |slots| && slots[slot].None?
    requires Stores(slots, rec.key, rec.desc) || (rec.key == e.key && rec.desc == e.desc)
    ensures Stores(slots[slot := Some(e)], rec.key, rec.desc)
  {
    var after := slots[slot := Some(e)];
    if rec.key == e.key && rec.desc == e.desc {
      assert after[slot] == Some(e);
    } else {
      var i :| 0 <= i < |slots| && slots[i].Some? && slots[i].value.key == rec.key && slots[i].value.desc == rec.desc;
      assert after[i] == slots[i];
    }
  }

  lemma WriterInv(s: State, step: Step)
    requires Inv(s) && Enabled(s, step)
    requires step.InsertBegin? || step.InvalidateTable? || step.InvalidateGeneration?
    ensures Inv(Apply(s, step))
  {
    var s' := Apply(s, step);
    forall t | 0 <= t < |s'.tables| ensures Sourced(s', t) {
      if t < |s.tables| { assert Sourced(s, t); }
    }
  }

  lemma StepInv(s: State, step: Step)
    requires Inv(s) && Enabled(s, step)
    ensures Inv(Apply(s, step))
  {
    if step.InsertResize? {
      ResizeInv(s, step.bigger);
    } else if step.InsertStore? {
      StoreInv(s, step.slot);
    } else if step.InsertBegin? || step.InvalidateTable? || step.InvalidateGeneration? {
      WriterInv(s, step);
    } else {
      GetInv(s, step);
    }
  }

  ghost predicate IsRun(ss: seq<State>, steps: seq<Step>) {
    && |ss| == |steps| + 1 && Init(ss[0])
    && forall i {:trigger steps[i]} :: 0 <= i < |steps| ==>
      WellFormed(ss[i]) && Enabled(ss[i], steps[i]) && ss[i + 1] == Apply(ss[i], steps[i])
  }

  lemma {:induction false} RunInv(ss: seq<State>, steps: seq<Step>, i: nat)
    requires IsRun(ss, steps) && i < |ss|
    ensures Inv(ss[i])
  {
    if i == 0 {
      InitInv(ss[0]);
    } else {
      RunInv(ss, steps, i - 1);
      StepInv(ss[i - 1], steps[i - 1]);
    }
  }

  /** Whatever the interleaving, a lookup that returns a descriptor for `key` at generation `seen`
      returns one that an Insert for exactly that key and that expected generation has stored. */
  lemma LookupIsSourced(ss: seq<State>, steps: seq<Step>, i: nat, c: CallId)
    requires IsRun(ss, steps) && i < |ss|
    requires c in ss[i].readers && ss[i].readers[c].Returned? && ss[i].readers[c].result.Some?
    ensures var r := ss[i].readers[c]; Record(r.key, r.result.value, r.seen) in ss[i].inserted
  {
    RunInv(ss, steps, i);
    assert ReaderOk(ss[i], ss[i].readers[c]);
  }

  /** One step publishes only for the generation it runs in. */
  lemma StepPublishes(s: State, step: Step, rec: Record)
    requires Inv(s) && WellFormed(s) && Enabled(s, step) && rec in Apply(s, step).inserted
    requires s.generation > rec.expected
    ensures rec in s.inserted
  {
  }

  /** Nothing looked up before an invalidation is published after it: once the generation has moved
      on, no further insert for the old one takes effect. */
  lemma {:induction false} NoLatePublication(ss: seq<State>, steps: seq<Step>, i: nat, j: nat, rec: Record)
    requires IsRun(ss, steps) && i <= j < |ss| && ss[i].generation > rec.expected && rec in ss[j].inserted
    ensures rec in ss[i].inserted && ss[j].generation >= ss[i].generation
  {
    if i < j {
      RunInv(ss, steps, j - 1);
      GenerationGrows(ss, steps, i, j - 1);
      StepPublishes(ss[j - 1], steps[j - 1], rec);
      NoLatePublication(ss, steps, i, j - 1, rec);
      GenerationGrows(ss, steps, i, j);
    }
  }

  lemma {:induction false} GenerationGrows(ss: seq<State>, steps: seq<Step>, i: nat, j: nat)
    requires IsRun(ss, steps) && i <= j < |ss|
    ensures ss[j].generation >= ss[i].generation
  {
    if i < j {
      GenerationGrows(ss, steps, i, j - 1);
      assert ss[j] == Apply(ss[j - 1], steps[j - 1]);
    }
  }

  /** A slot is written once: a reader still probing a retired table sees what was ever stored. */
  lemma {:induction false} SlotsAreWriteOnce(ss: seq<State>, steps: seq<Step>, i: nat, j: nat, t: nat, k: nat)
    requires IsRun(ss, steps) && i <= j < |ss|
    requires t < |ss[i].tables| && k < |ss[i].tables[t].slots| && ss[i].tables[t].slots[k].Some?
    ensures t < |ss[j].tables| && k < |ss[j].tables[t].slots| && ss[j].tables[t].slots[k] == ss[i].tables[t].slots[k]
  {
    if i < j {
      SlotsAreWriteOnce(ss, steps, i, j - 1, t, k);
      assert ss[j] == Apply(ss[j - 1], steps[j - 1]);
    }
  }

  // ---- lookups do not miss ---------------------------------------------------------------------

  /** Lookup `c` for `key`, which loaded table `t` when slot `e` of it held `desc`, is on its way to `e` or has found
      it; it gives up what it found only when the generation has moved on. */
  ghost predicate Finding(s: State, c: CallId, key: Key, seen: nat, t: nat, e: nat, desc: Desc) {
    && t < |s.tables| && e < |s.tables[t].slots| && c in s.readers
    && s.tables[t].slots[e] == Some(FastMap.Entry(s.hash(key), key, desc))
    && var r := s.readers[c];
    && r.key == key && r.seen == seen
    && match r
       case Started(_, _) => false
       case Probing(_, _, t', _, probes) =>
         t' == t && probes <= FastMap.Distance(s.hash(key) % |s.tables[t].slots|, e, |s.tables[t].slots|)
       case Ending(_, _, _, hit) => hit == Some(desc)
       case Returned(_, _, result) => result == Some(desc) || (result == None && s.generation > seen)
  }

  /** On the way to an entry there is no gap, and no other entry with its key. */
  lemma ProbeFinds(s: State, c: CallId, key: Key, seen: nat, t: nat, e: nat, desc: Desc)
    requires Inv(s) && Finding(s, c, key, seen, t, e, desc) && s.readers[c].Probing?
    ensures Finding(Apply(s, GetProbe(c)), c, key, seen, t, e, desc)
  {
    var r, slots := s.readers[c], s.tables[t].slots;
    var n := |slots|;
    var home := s.hash(key) % n;
    assert OnTheWay(s, r) && FastMap.Placed(slots, s.hash) && FastMap.NoGap(slots, e);
    if r.probes < FastMap.Distance(home, e, n) {
      assert slots[FastMap.Around(home, r.probes, n)].Some? && r.slot != e;
    } else {
      assert r.slot == e;
    }
  }

  lemma StepFinds(s: State, step: Step, c: CallId, key: Key, seen: nat, t: nat, e: nat, desc: Desc)
    requires Inv(s) && Enabled(s, step) && Finding(s, c, key, seen, t, e, desc) && seen <= s.generation
    ensures Finding(Apply(s, step), c, key, seen, t, e, desc)
  {
    if step == GetProbe(c) {
      ProbeFinds(s, c, key, seen, t, e, desc);
    }
  }

  lemma {:induction false} StaysFinding(ss: seq<State>, steps: seq<Step>, i: nat, j: nat,
                                        c: CallId, key: Key, seen: nat, t: nat, e: nat, desc: Desc)
    requires IsRun(ss, steps) && i <= j < |ss| && Finding(ss[i], c, key, seen, t, e, desc) && seen <= ss[i].generation
    ensures Finding(ss[j], c, key, seen, t, e, desc)
  {
    if i < j {
      StaysFinding(ss, steps, i, j - 1, c, key, seen, t, e, desc);
      RunInv(ss, steps, j - 1);
      GenerationGrows(ss, steps, i, j - 1);
      StepFinds(ss[j - 1], steps[j - 1], c, key, seen, t, e, desc);
    }
  }

  /** A lookup that loads a table holding its key returns that descriptor, whatever writers do meanwhile, unless the
      generation has moved on. */
  lemma LookupFinds(ss: seq<State>, steps: seq<Step>, i: nat, j: nat, c: CallId, desc: Desc)
    requires IsRun(ss, steps) && i < j < |ss| && steps[i] == GetLoadTable(c) && c in ss[i].readers
    requires ss[i].active < |ss[i].tables| && Stores(ss[i].tables[ss[i].active].slots, ss[i].readers[c].key, desc)
    ensures c in ss[j].readers
    ensures var r := ss[j].readers[c]; r.Returned? && r.seen == ss[j].generation ==> r.result == Some(desc)
  {
    RunInv(ss, steps, i);
    var s, r := ss[i], ss[i].readers[c];
    assert ss[i + 1] == Apply(s, steps[i]);
    var slots := s.tables[s.active].slots;
    var e :| 0 <= e < |slots| && slots[e].Some? && slots[e].value.key == r.key && slots[e].value.desc == desc;
    assert FastMap.Placed(slots, s.hash) && slots[e].value.hash == s.hash(r.key);
    assert Finding(ss[i + 1], c, r.key, r.seen, s.active, e, desc);
    StaysFinding(ss, steps, i + 1, j, c, r.key, r.seen, s.active, e, desc);
  }

  /** What an insert has stored is found: a lookup that starts and loads its table while the generation is the
      insert's and no invalidation is under way returns its descriptor, unless the generation moves on. */
  lemma NoFalseMiss(ss: seq<State>, steps: seq<Step>, i: nat, j: nat, c: CallId, desc: Desc)
    requires IsRun(ss, steps) && i < j < |ss| && steps[i] == GetLoadTable(c) && c in ss[i].readers
    requires !ss[i].writer.Invalidating? && ss[i].readers[c].seen == ss[i].generation
    requires Record(ss[i].readers[c].key, desc, ss[i].generation) in ss[i].inserted
    ensures c in ss[j].readers
    ensures var r := ss[j].readers[c]; r.Returned? && r.seen == ss[j].generation ==> r.result == Some(desc)
  {
    RunInv(ss, steps, i);
    LookupFinds(ss, steps, i, j, c, desc);
  }

  /** An insert that completes has put its entry into the active table and nothing else anywhere. */
  lemma InsertPublishes(ss: seq<State>, steps: seq<Step>, i: nat)
    requires IsRun(ss, steps) && i < |steps| && steps[i].InsertStore?
    ensures var e := ss[i].writer.entry;
      && ss[i].writer.Storing? && ss[i + 1].writer.Unlocked? && ss[i + 1].active == ss[i].active < |ss[i + 1].tables|
      && Stores(ss[i + 1].tables[ss[i + 1].active].slots, e.key, e.desc)
      && Record(e.key, e.desc, ss[i].generation) in ss[i + 1].inserted
  {
    RunInv(ss, steps, i);
    var s := ss[i];
    assert ss[i + 1] == Apply(s, steps[i]);
    assert ss[i + 1].tables[s.active].slots[steps[i].slot] == Some(s.writer.entry);
  }
}
