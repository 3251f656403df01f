/** The open-addressing table of the generic type cache, as its single writer sees it
    (GenericTiDescFastMap in runtime/src/TypeInfoManager.cpp). The hash is an arbitrary function of
    the key; the power-of-two slot mask is a remainder. */
module FastMap {

  import opened Common
  import opened Alignment

  datatype Key = Key(template: nat, args: seq<nat>)

  type Desc = nat

  datatype Entry = Entry(hash: nat, key: Key, desc: Desc)

  type Slots = seq<Option<Entry>>

  const MAX_INLINE_ARGS: nat := 3

  // ---- probing arithmetic ----------------------------------------------------------------------

  /** The slot reached from `home` after `j` steps around a table of `n` slots. */
  function Around(home: nat, j: nat, n: nat): (i: nat)
    requires home < n && j < n
    ensures i < n
  {
    if home + j < n then home + j else home + j - n
  }

  /** How many steps lead from `home` to `i`. */
  function Distance(home: nat, i: nat, n: nat): (j: nat)
    requires home < n && i < n
    ensures j < n && Around(home, j, n) == i
  {
    if i >= home then i - home else i + n - home
  }

  // ---- slots -----------------------------------------------------------------------------------

  function Filled(s: Slots): nat {
    if s == [] then 0 else Filled(s[..|s| - 1]) + if s[|s| - 1].Some? then 1 else 0
  }

  lemma FilledBound(s: Slots)
    ensures Filled(s) <= |s|
    ensures Filled(s) == |s| <==> forall i :: 0 <= i < |s| ==> s[i].Some?
  {
    if s != [] {
      var t := s[..|s| - 1];
      FilledBound(t);
      assert forall i :: 0 <= i < |t| ==> t[i] == s[i];
    }
  }

  lemma FilledStore(s: Slots, i: nat, e: Entry)
    requires i < |s| && s[i].None?
    ensures Filled(s[i := Some(e)]) == Filled(s) + 1
  {
    var t := s[i := Some(e)];
    if i == |s| - 1 {
      assert t[..|s| - 1] == s[..|s| - 1];
    } else {
      assert t[..|s| - 1] == s[..|s| - 1][i := Some(e)];
      FilledStore(s[..|s| - 1], i, e);
    }
  }

  lemma FilledNone(s: Slots)
    requires forall i :: 0 <= i < |s| ==> s[i].None?
    ensures Filled(s) == 0
  {
  }

  /** Every slot on the way from an entry's home to the entry is filled. */
  ghost predicate NoGap(s: Slots, i: nat)
    requires i < |s| && s[i].Some?
  {
    var home := s[i].value.hash % |s|;
    forall j :: 0 <= j < Distance(home, i, |s|) ==> s[Around(home, j, |s|)].Some?
  }

  ghost predicate Placed(s: Slots, hash: Key -> nat) {
    && (forall i :: 0 <= i < |s| && s[i].Some? ==> s[i].value.hash == hash(s[i].value.key) && NoGap(s, i))
    && (forall i, j :: 0 <= i < |s| && 0 <= j < |s| && s[i].Some? && s[j].Some? ==>
          s[i].value.key == s[j].value.key ==> i == j)
  }

  /** The finite map the slots stand for. */
  ghost function Contents(s: Slots): map<Key, Desc> {
    if s == [] then map[]
    else
      var m := Contents(s[..|s| - 1]);
      if s[|s| - 1].Some? then m[s[|s| - 1].value.key := s[|s| - 1].value.desc] else m
  }

  lemma ContentsKeys(s: Slots, k: Key)
    ensures k in Contents(s) <==> exists i :: 0 <= i < |s| && s[i].Some? && s[i].value.key == k
  {
    if s != [] {
      var t := s[..|s| - 1];
      ContentsKeys(t, k);
      assert forall i :: 0 <= i < |t| ==> t[i] == s[i];
    }
  }

  lemma ContentsAt(s: Slots, i: nat)
    requires i < |s| && s[i].Some?
    requires forall j :: i < j < |s| && s[j].Some? ==> s[j].value.key != s[i].value.key
    ensures s[i].value.key in Contents(s) && Contents(s)[s[i].value.key] == s[i].value.desc
  {
    if i < |s| - 1 {
      var t := s[..|s| - 1];
      assert t[i] == s[i];
      ContentsAt(t, i);
    }
  }

  lemma ContentsStore(s: Slots, i: nat, e: Entry)
    requires i < |s| && s[i].None? && forall j :: 0 <= j < |s| && s[j].Some? ==> s[j].value.key != e.key
    ensures Contents(s[i := Some(e)]) == Contents(s)[e.key := e.desc]
  {
    var t := s[i := Some(e)];
    var r := s[..|s| - 1];
    if i == |s| - 1 {
      assert t[..|s| - 1] == r;
    } else {
      assert t[..|s| - 1] == r[i := Some(e)];
      assert forall j :: 0 <= j < |r| ==> r[j] == s[j];
      ContentsStore(r, i, e);
    }
  }

  lemma ContentsNone(s: Slots)
    requires forall i :: 0 <= i < |s| ==> s[i].None?
    ensures Contents(s) == map[]
  {
  }

  // ---- the table -------------------------------------------------------------------------------

  lemma NextSlot(slot: nat, n: nat)
    requires slot < n
    ensures (slot + 1) % n == if slot + 1 == n then 0 else slot + 1
  {
  }

  /** An empty slot ends the search: a key past it would leave a gap. */
  lemma EmptyEndsSearch(s: Slots, hash: Key -> nat, key: Key, probe: nat)
    requires Placed(s, hash) && probe < |s|
    requires var home := hash(key) % |s|;
      && s[Around(home, probe, |s|)].None?
      && forall j :: 0 <= j < probe ==> s[Around(home, j, |s|)].Some? && s[Around(home, j, |s|)].value.key != key
    ensures key !in Contents(s)
  {
    ContentsKeys(s, key);
    var home := hash(key) % |s|;
    forall i | 0 <= i < |s| && s[i].Some? ensures s[i].value.key != key {
      assert NoGap(s, i);
      assert s[Around(home, Distance(home, i, |s|), |s|)] == s[i];
    }
  }

  /** A probe sequence visits every slot. */
  lemma FullCircle(s: Slots, home: nat, i: nat)
    requires home < |s| && i < |s|
    requires forall j :: 0 <= j < |s| ==> s[Around(home, j, |s|)].Some?
    ensures s[i].Some?
  {
    assert s[Around(home, Distance(home, i, |s|), |s|)] == s[i];
  }

  /** Storing at the end of a filled stretch leaves no gap. */
  lemma StoreKeepsPlaced(s: Slots, hash: Key -> nat, e: Entry, probe: nat)
    requires Placed(s, hash) && probe < |s| && e.hash == hash(e.key)
    requires var home := e.hash % |s|;
      s[Around(home, probe, |s|)].None? && forall j :: 0 <= j < probe ==> s[Around(home, j, |s|)].Some?
    requires forall j :: 0 <= j < |s| && s[j].Some? ==> s[j].value.key != e.key
    ensures Placed(s[Around(e.hash % |s|, probe, |s|) := Some(e)], hash)
  {
    var home := e.hash % |s|;
    var i := Around(home, probe, |s|);
    var t := s[i := Some(e)];
    forall k | 0 <= k < |t| && t[k].Some? ensures t[k].value.hash == hash(t[k].value.key) && NoGap(t, k) {
      if k == i {
        assert Distance(home, i, |s|) == probe;
      } else {
        assert NoGap(s, k);
      }
    }
  }

  class Table {
    const slots: array<Option<Entry>>
    var size: nat

    ghost predicate Valid(hash: Key -> nat)
      reads this, slots
    {
      slots.Length >= 8 && PowerOfTwo(slots.Length) && size == Filled(slots[..]) && Placed(slots[..], hash)
    }

    ghost function Map(): map<Key, Desc>
      reads this, slots
    {
      Contents(slots[..])
    }

    constructor (capacity: nat, ghost hash: Key -> nat)
      requires capacity >= 8 && PowerOfTwo(capacity)
      ensures Valid(hash) && fresh(slots) && Map() == map[] && size == 0 && slots.Length == capacity
    {
      slots := new Option<Entry>[capacity](_ => None);
      size := 0;
      new;
      FilledNone(slots[..]);
      ContentsNone(slots[..]);
    }

    /** Linear probing from the home slot; an empty slot ends it. */
    method Find(hash: nat, key: Key, ghost hashOf: Key -> nat) returns (r: Option<Entry>)
      requires Valid(hashOf) && hash == hashOf(key)
      ensures r.Some? <==> key in Map()
      ensures r.Some? ==> r.value.key == key && r.value.desc == Map()[key]
    {
      ghost var home := hash % slots.Length;
      var slot := hash % slots.Length;
      var probe := 0;
      while probe < slots.Length
        invariant probe <= slots.Length && slot < slots.Length
        invariant probe < slots.Length ==> slot == Around(home, probe, slots.Length)
        invariant forall j :: 0 <= j < probe ==>
          slots[Around(home, j, slots.Length)].Some? && slots[Around(home, j, slots.Length)].value.key != key
      {
        if slots[slot].None? {
          EmptyEndsSearch(slots[..], hashOf, key, probe);
          return None;
        }
        if slots[slot].value.hash == hash && slots[slot].value.key == key {
          assert slots[..][slot] == slots[slot];
          ContentsAt(slots[..], slot);
          return slots[slot];
        }
        NextSlot(slot, slots.Length);
        slot := (slot + 1) % slots.Length;
        probe := probe + 1;
      }
      ContentsKeys(slots[..], key);
      forall i | 0 <= i < slots.Length ensures slots[i].Some? && slots[i].value.key != key {
        assert slots[Around(home, Distance(home, i, slots.Length), slots.Length)] == slots[i];
      }
      return None;
    }

    /** Store an entry in the first empty slot of its probe sequence; there always is one. */
    method Insert(entry: Entry, ghost hashOf: Key -> nat)
      requires Valid(hashOf) && entry.hash == hashOf(entry.key) && entry.key !in Map() && size < slots.Length
      modifies this`size, slots
      ensures Valid(hashOf) && Map() == old(Map())[entry.key := entry.desc] && size == old(size) + 1
    {
      ghost var s := slots[..];
      ghost var home := entry.hash % slots.Length;
      NotStored(s, entry.key);
      var slot := entry.hash % slots.Length;
      var probe := 0;
      while probe < slots.Length
        invariant probe <= slots.Length && slot < slots.Length && slots[..] == s && size == old(size)
        invariant probe < slots.Length ==> slot == Around(home, probe, slots.Length)
        invariant forall j :: 0 <= j < probe ==> s[Around(home, j, |s|)].Some?
      {
        if slots[slot].None? {
          slots[slot] := Some(entry);
          size := size + 1;
          assert slots[..] == s[slot := Some(entry)];
          StoreKeepsPlaced(s, hashOf, entry, probe);
          FilledStore(s, slot, entry);
          ContentsStore(s, slot, entry);
          return;
        }
        NextSlot(slot, slots.Length);
        slot := (slot + 1) % slots.Length;
        probe := probe + 1;
      }
      FilledBound(s);
      ghost var i :| 0 <= i < |s| && s[i].None?;
      FullCircle(s, home, i);
      assert false; // the table always has an empty slot
    }
  }

  lemma NotStored(s: Slots, k: Key)
    requires k !in Contents(s)
    ensures forall j :: 0 <= j < |s| && s[j].Some? ==> s[j].value.key != k
  {
    ContentsKeys(s, k);
  }

  lemma Doubled(n: nat)
    requires n >= 1 && PowerOfTwo(n)
    ensures PowerOfTwo(n * 2) && n * 2 / 2 == n
  {
  }

  method NormalizeCapacity(capacity: nat) returns (n: nat)
    ensures n >= capacity && n >= 8 && PowerOfTwo(n) && (n == 8 || n / 2 < capacity)
  {
    n := 8;
    while n < capacity
      invariant n >= 8 && PowerOfTwo(n) && (n == 8 || n / 2 < capacity)
    {
      Doubled(n);
      n := n * 2;
    }
  }

  /** A power of two is the least one that is not below itself. */
  lemma LeastPower(n: nat, c: nat)
    requires PowerOfTwo(n) && PowerOfTwo(c) && c <= n && (n == 8 || n / 2 < c) && c >= 8
    ensures n == c
  {
    if c < n {
      PowersDivide(c, n);
      Apart(c, n, c);
    }
  }

  // ---- the map ---------------------------------------------------------------------------------

  class Cache {
    const hashOf: Key -> nat
    var active: Table
    var generation: nat

    ghost predicate Valid()
      reads this, active, active.slots
    {
      active.Valid(hashOf) && 10 * active.size < 7 * active.slots.Length
    }

    ghost function Map(): map<Key, Desc>
      reads this, active, active.slots
    {
      active.Map()
    }

    constructor (hashOf: Key -> nat, initialCapacity: nat)
      ensures Valid() && Map() == map[] && generation == 1 && this.hashOf == hashOf
      ensures active.slots.Length == 8 || active.slots.Length / 2 < initialCapacity <= active.slots.Length
    {
      var n := NormalizeCapacity(initialCapacity);
      this.hashOf := hashOf;
      active := new Table(n, hashOf);
      generation := 1;
    }

    /** With no writer running, a lookup returns exactly what the map holds. */
    method Get(key: Key) returns (desc: Option<Desc>, seen: nat)
      requires Valid()
      ensures |key.args| <= MAX_INLINE_ARGS ==>
        seen == generation && desc == if key in Map() then Some(Map()[key]) else None
      ensures |key.args| > MAX_INLINE_ARGS ==> desc == None
    {
      if |key.args| > MAX_INLINE_ARGS {
        return None, 0;
      }
      seen := generation;
      var entry := active.Find(hashOf(key), key, hashOf);
      desc := if entry.None? then None else Some(entry.value.desc);
    }

    /** Copy every entry into a larger table and make it the active one. */
    method Resize(capacity: nat)
      requires Valid() && capacity >= 2 * active.slots.Length
      modifies this`active
      ensures fresh(active) && fresh(active.slots) && active.Valid(hashOf) && active.slots.Length >= capacity
      ensures PowerOfTwo(capacity) && capacity >= 8 ==> active.slots.Length == capacity
      ensures Map() == old(Map()) && active.size == old(active.size)
    {
      var oldTable := active;
      ghost var s := oldTable.slots[..];
      var n := NormalizeCapacity(capacity);
      if PowerOfTwo(capacity) && capacity >= 8 {
        LeastPower(n, capacity);
      }
      var newTable := new Table(n, hashOf);
      assert s[..0] == [];
      for idx := 0 to oldTable.slots.Length
        invariant newTable.Valid(hashOf) && newTable.slots.Length == n && fresh(newTable) && fresh(newTable.slots)
        invariant oldTable.slots[..] == s && active == oldTable
        invariant newTable.Map() == Contents(s[..idx]) && newTable.size == Filled(s[..idx])
      {
        CopySlot(newTable, oldTable.slots[idx], s, idx);
      }
      assert s[..|s|] == s;
      active := newTable;
    }

    /** Copy slot `idx` of the old slots `s`. */
    method CopySlot(t: Table, entry: Option<Entry>, ghost s: Slots, ghost idx: nat)
      requires t.Valid(hashOf) && Placed(s, hashOf) && idx < |s| < t.slots.Length && entry == s[idx]
      requires t.Map() == Contents(s[..idx]) && t.size == Filled(s[..idx])
      modifies t`size, t.slots
      ensures t.Valid(hashOf) && t.Map() == Contents(s[..idx + 1]) && t.size == Filled(s[..idx + 1])
    {
      assert s[..idx + 1][..idx] == s[..idx];
      if entry.Some? {
        FreshKey(s, hashOf, idx);
        FilledBound(s[..idx]);
        t.Insert(entry.value, hashOf);
      }
    }

    method Insert(key: Key, desc: Desc, expected: nat)
      requires Valid()
      modifies this`active, active, active.slots
      ensures Valid() && generation == old(generation)
      ensures active == old(active) || (fresh(active) && fresh(active.slots))
      ensures Map() == if |key.args| <= MAX_INLINE_ARGS && generation == expected && key !in old(Map())
        then old(Map())[key := desc] else old(Map())
      ensures active.slots.Length == old(active.slots.Length) ||
        (active.slots.Length == 2 * old(active.slots.Length) &&
         10 * (old(active.size) + 1) >= 7 * old(active.slots.Length) && Map() != old(Map()))
    {
      if |key.args| > MAX_INLINE_ARGS {
        return;
      }
      if generation != expected {
        return;
      }
      var found := active.Find(hashOf(key), key, hashOf);
      if found.Some? {
        return;
      }
      if (active.size + 1) * 10 >= active.slots.Length * 7 {
        Doubled(active.slots.Length);
        Resize(active.slots.Length * 2);
      }
      active.Insert(Entry(hashOf(key), key, desc), hashOf);
    }

    method Invalidate()
      requires Valid()
      modifies this`active, this`generation
      ensures Valid() && Map() == map[] && generation == old(generation) + 1
      ensures fresh(active) && fresh(active.slots) && active.slots.Length == old(active.slots.Length)
    {
      active := new Table(active.slots.Length, hashOf);
      generation := generation + 1;
    }
  }

  lemma FreshKey(s: Slots, hash: Key -> nat, i: nat)
    requires Placed(s, hash) && i < |s| && s[i].Some?
    ensures s[i].value.key !in Contents(s[..i]) && s[i].value.hash == hash(s[i].value.key)
  {
    ContentsKeys(s[..i], s[i].value.key);
  }
}
