/** Object layout and the garbage collector's reference bitmap (FillOffsets, GetTypeSize and TypeGCInfo
    in runtime/src/TypeInfoManager.cpp). Sizes are unbounded. */
module Layout {

  import opened Alignment

  const PTR: Pos := 8

  /** A type as the layout code sees it: `Empty` is Nothing or Unit, `Prim` a type whose stored size is
      used as it is, `Ref` anything held by reference, `Value` a tuple, struct or enum with fields.
      `Value` carries what its type info stores: alignment, instance size, has-reference flag. */
  datatype Type =
    | Empty
    | Prim(size: nat, align: Pos)
    | Ref
    | Value(fields: seq<Type>, valueAlign: Pos, valueSize: nat, flag: bool)
    | VArray(component: Type, length: nat)

  // ---- alignment, size, offsets ----------------------------------------------------------------

  function AlignOf(t: Type): Pos {
    match t
    case Empty => 1
    case Prim(_, align) => align
    case Ref => PTR
    case Value(_, align, _, _) => align
    case VArray(c, _) => AlignOf(c)
  }

  /** Holds references, as far as the type info's flags say. */
  predicate Flagged(t: Type) {
    match t
    case Ref => true
    case Value(_, _, _, flag) => flag
    case VArray(c, _) => Flagged(c)
    case _ => false
  }

  /** The size recomputed from the fields. */
  ghost function Size(t: Type): nat
    decreases t, 0
  {
    match t
    case Empty => 0
    case Prim(size, _) => size
    case Ref => PTR
    case Value(fs, align, _, _) => Up(End(fs, |fs|), align)
    case VArray(c, n) => Up(Elements(c, n), AlignOf(c))
  }

  ghost function Elements(c: Type, n: nat): nat
    decreases c, n + 1
  {
    if n == 0 then 0 else Up(Elements(c, n - 1), AlignOf(c)) + Size(c)
  }

  /** Where the first `n` fields end. */
  ghost function End(fs: seq<Type>, n: nat): nat
    requires n <= |fs|
    decreases fs, n, 0
  {
    if n == 0 then 0 else if fs[n - 1].Empty? then End(fs, n - 1) else Start(fs, n - 1) + Size(fs[n - 1])
  }

  /** Where field `i` starts. */
  ghost function Start(fs: seq<Type>, i: nat): nat
    requires i < |fs|
    decreases fs, i, 1
  {
    Up(End(fs, i), AlignOf(fs[i]))
  }

  function MaxAlign(fs: seq<Type>, n: nat): Pos
    requires n <= |fs|
  {
    if n == 0 then 1
    else if fs[n - 1].Empty? || MaxAlign(fs, n - 1) > AlignOf(fs[n - 1]) then MaxAlign(fs, n - 1)
    else AlignOf(fs[n - 1])
  }

  predicate AnyFlagged(fs: seq<Type>, n: nat)
    requires n <= |fs|
  {
    exists i | 0 <= i < n :: Flagged(fs[i])
  }

  /** Power-of-two alignments, sizes that are multiples of them, and stored values that the fields
      justify. */
  ghost predicate WellFormed(t: Type) {
    match t
    case Prim(size, align) => PowerOfTwo(align) && Aligned(size, align)
    case Value(fs, align, size, flag) =>
      && (forall f <- fs :: WellFormed(f))
      && align == MaxAlign(fs, |fs|)
      && size == Up(End(fs, |fs|), align)
      && flag == AnyFlagged(fs, |fs|)
    case VArray(c, _) => WellFormed(c)
    case _ => true
  }

  ghost predicate AllWellFormed(fs: seq<Type>) {
    forall f <- fs :: WellFormed(f)
  }

  lemma AlignIsPower(t: Type)
    requires WellFormed(t)
    ensures PowerOfTwo(AlignOf(t))
  {
    match t {
      case Ref => assert PowerOfTwo(2) && PowerOfTwo(4) && PowerOfTwo(8);
      case Value(fs, _, _, _) => MaxAlignIsPower(fs, |fs|);
      case VArray(c, _) => AlignIsPower(c);
      case _ =>
    }
  }

  lemma MaxAlignIsPower(fs: seq<Type>, n: nat)
    requires AllWellFormed(fs) && n <= |fs|
    ensures PowerOfTwo(MaxAlign(fs, n))
    ensures forall i :: 0 <= i < n && !fs[i].Empty? ==> AlignOf(fs[i]) <= MaxAlign(fs, n)
  {
    if n > 0 {
      MaxAlignIsPower(fs, n - 1);
      AlignIsPower(fs[n - 1]);
    }
  }

  lemma SizeIsMultiple(t: Type)
    requires WellFormed(t)
    ensures Aligned(Size(t), AlignOf(t))
  {
  }

  /** `n` times `x`. */
  ghost function Times(n: nat, x: nat): nat {
    if n == 0 then 0 else Times(n - 1, x) + x
  }

  lemma TimesAligned(n: nat, x: nat, a: Pos)
    requires Aligned(x, a)
    ensures Aligned(Times(n, x), a)
  {
    if n > 0 {
      TimesAligned(n - 1, x, a);
      AlignedSum(Times(n - 1, x), x, a);
    }
  }

  lemma TimesMonotone(k: nat, n: nat, x: nat)
    requires k <= n
    ensures Times(k, x) <= Times(n, x)
    ensures k < n ==> Times(k, x) + x <= Times(n, x)
  {
    if k < n {
      TimesMonotone(k, n - 1, x);
    }
  }

  /** Array elements lie one size apart. */
  lemma {:induction false} ArraySize(c: Type, n: nat)
    requires WellFormed(c)
    ensures Elements(c, n) == Times(n, Size(c)) == Size(VArray(c, n))
  {
    SizeIsMultiple(c);
    TimesAligned(n, Size(c), AlignOf(c));
    if n > 0 {
      ArraySize(c, n - 1);
      TimesAligned(n - 1, Size(c), AlignOf(c));
      UpExact(Elements(c, n - 1), AlignOf(c));
    }
    UpExact(Elements(c, n), AlignOf(c));
  }

  lemma EndGrows(fs: seq<Type>, i: nat, j: nat)
    requires i <= j <= |fs|
    ensures End(fs, i) <= End(fs, j)
  {
    if i < j {
      EndGrows(fs, i, j - 1);
    }
  }

  /** Fields are aligned, do not overlap, and end within the instance. */
  lemma FieldsApart(fs: seq<Type>, i: nat, j: nat)
    requires i < j <= |fs| && !fs[i].Empty?
    ensures Aligned(Start(fs, i), AlignOf(fs[i]))
    ensures Start(fs, i) + Size(fs[i]) <= End(fs, j)
    ensures j < |fs| ==> Start(fs, i) + Size(fs[i]) <= Start(fs, j)
  {
    EndGrows(fs, i + 1, j);
  }

  // ---- the layout is the least one -------------------------------------------------------------

  /** The size a type info stores; an array is its elements side by side. */
  ghost function StoredSize(t: Type): nat {
    match t
    case Empty => 0
    case Prim(size, _) => size
    case Ref => 8
    case Value(_, _, size, _) => size
    case VArray(c, n) => Times(n, StoredSize(c))
  }

  /** The size computed from the fields is the stored one. */
  lemma SizeIsStored(t: Type)
    requires WellFormed(t)
    ensures Size(t) == StoredSize(t)
  {
    if t.VArray? {
      SizeIsStored(t.component);
      ArraySize(t.component, t.length);
    }
  }

  /** At address `o` every scalar of `t` is aligned as its own type asks, references at 8. */
  ghost predicate Suits(t: Type, o: nat) {
    match t
    case Empty => true
    case Prim(_, align) => Aligned(o, align)
    case Ref => Aligned(o, 8)
    case Value(fs, _, _, _) => forall i | 0 <= i < |fs| && !fs[i].Empty? :: Suits(fs[i], o + Start(fs, i))
    case VArray(c, _) => Suits(c, o)
  }

  lemma MaxAlignIff(fs: seq<Type>, n: nat, o: nat)
    requires AllWellFormed(fs) && n <= |fs|
    ensures Aligned(o, MaxAlign(fs, n)) <==> forall i | 0 <= i < n && !fs[i].Empty? :: Aligned(o, AlignOf(fs[i]))
  {
    if n == 0 {
      UpOne(o);
    } else {
      var f := fs[n - 1];
      MaxAlignIff(fs, n - 1, o);
      MaxAlignIsPower(fs, n - 1);
      AlignIsPower(f);
      if !f.Empty? {
        if MaxAlign(fs, n - 1) > AlignOf(f) {
          PowersDivide(AlignOf(f), MaxAlign(fs, n - 1));
          if Aligned(o, MaxAlign(fs, n - 1)) { Coarser(o, AlignOf(f), MaxAlign(fs, n - 1)); }
        } else {
          PowersDivide(MaxAlign(fs, n - 1), AlignOf(f));
          if Aligned(o, AlignOf(f)) { Coarser(o, MaxAlign(fs, n - 1), AlignOf(f)); }
        }
      }
    }
  }

  /** The alignment of a type is exactly what its scalars need. */
  lemma {:induction false} AlignIsExact(t: Type, o: nat)
    requires WellFormed(t)
    ensures Suits(t, o) <==> Aligned(o, AlignOf(t))
  {
    match t {
      case Empty => UpOne(o);
      case Value(fs, align, _, _) =>
        forall i | 0 <= i < |fs| && !fs[i].Empty?
          ensures Suits(fs[i], o + Start(fs, i)) <==> Aligned(o, AlignOf(fs[i]))
        {
          AlignIsExact(fs[i], o + Start(fs, i));
          ShiftedAligned(o, Start(fs, i), AlignOf(fs[i]));
        }
        MaxAlignIff(fs, |fs|, o);
      case VArray(c, _) => AlignIsExact(c, o);
      case _ =>
    }
  }

  lemma ShiftedAligned(o: nat, d: nat, a: Pos)
    requires Aligned(d, a)
    ensures Aligned(o + d, a) <==> Aligned(o, a)
  {
    if Aligned(o, a) {
      AlignedSum(o, d, a);
    }
    if Aligned(o + d, a) {
      AlignedPart(o, d, a);
    }
  }

  /** Offsets that put every field at a suitable place, in order and without overlap. */
  ghost predicate Placement(fs: seq<Type>, at: seq<nat>) {
    && |at| == |fs|
    && (forall i | 0 <= i < |fs| && !fs[i].Empty? :: Suits(fs[i], at[i]))
    && (forall i, j | 0 <= i < j < |fs| && !fs[i].Empty? && !fs[j].Empty? :: at[i] + StoredSize(fs[i]) <= at[j])
  }

  /** No placement puts any field earlier, and none lets the fields end earlier. */
  lemma {:induction false} LayoutIsLeast(fs: seq<Type>, at: seq<nat>, n: nat, bound: nat)
    requires AllWellFormed(fs) && Placement(fs, at) && n <= |fs|
    requires forall i | 0 <= i < n && !fs[i].Empty? :: at[i] + StoredSize(fs[i]) <= bound
    ensures End(fs, n) <= bound
    ensures forall i | 0 <= i < n && !fs[i].Empty? :: Start(fs, i) <= at[i]
  {
    if n > 0 {
      var f := fs[n - 1];
      if f.Empty? {
        LayoutIsLeast(fs, at, n - 1, bound);
      } else {
        LayoutIsLeast(fs, at, n - 1, at[n - 1]);
        AlignIsExact(f, at[n - 1]);
        UpLeast(End(fs, n - 1), AlignOf(f), at[n - 1]);
        SizeIsStored(f);
      }
    }
  }

  /** The computed offsets are themselves a placement. */
  lemma LayoutIsPlacement(fs: seq<Type>, at: seq<nat>)
    requires AllWellFormed(fs) && |at| == |fs|
    requires forall i | 0 <= i < |fs| && !fs[i].Empty? :: at[i] == Start(fs, i)
    ensures Placement(fs, at)
  {
    forall i | 0 <= i < |fs| && !fs[i].Empty? ensures Suits(fs[i], at[i]) {
      AlignIsExact(fs[i], at[i]);
    }
    forall i, j | 0 <= i < j < |fs| && !fs[i].Empty? && !fs[j].Empty? ensures at[i] + StoredSize(fs[i]) <= at[j] {
      FieldsApart(fs, i, j);
      SizeIsStored(fs[i]);
    }
  }

  /** An instance of `size` bytes holds the placed fields, and instances can lie side by side. */
  ghost predicate Holds(t: Type, at: seq<nat>, size: nat)
    requires t.Value? && |at| == |t.fields|
  {
    && (forall i | 0 <= i < |t.fields| && !t.fields[i].Empty? :: at[i] + StoredSize(t.fields[i]) <= size)
    && Suits(t, size)
  }

  /** No placement in an instance of any size beats the computed offsets and size. */
  lemma InstanceIsLeast(t: Type, at: seq<nat>, size: nat)
    requires WellFormed(t) && t.Value? && Placement(t.fields, at) && Holds(t, at, size)
    ensures StoredSize(t) <= size
    ensures forall i | 0 <= i < |t.fields| && !t.fields[i].Empty? :: Start(t.fields, i) <= at[i]
  {
    LayoutIsLeast(t.fields, at, |t.fields|, size);
    AlignIsExact(t, size);
    UpLeast(End(t.fields, |t.fields|), t.valueAlign, size);
  }

  /** The offsets place the fields in an instance of this size, and no placement in any instance has a field earlier
      or a smaller instance. */
  ghost predicate Least(t: Type, at: seq<nat>, size: nat)
    requires t.Value?
  {
    && Placement(t.fields, at) && Holds(t, at, size)
    && forall other: seq<nat>, total: nat | Placement(t.fields, other) && Holds(t, other, total) ::
      size <= total && forall i | 0 <= i < |t.fields| && !t.fields[i].Empty? :: at[i] <= other[i]
  }

  lemma ComputedIsLeast(t: Type, at: seq<nat>)
    requires WellFormed(t) && t.Value? && |at| == |t.fields|
    requires forall i | 0 <= i < |t.fields| && !t.fields[i].Empty? :: at[i] == Start(t.fields, i)
    ensures Least(t, at, Size(t))
  {
    SizeIsStored(t);
    LayoutIsPlacement(t.fields, at);
    InstanceHolds(t, at);
    forall other: seq<nat>, total: nat | Placement(t.fields, other) && Holds(t, other, total)
      ensures Size(t) <= total && forall i | 0 <= i < |t.fields| && !t.fields[i].Empty? :: at[i] <= other[i]
    {
      InstanceIsLeast(t, other, total);
    }
  }

  /** The stored size holds the computed offsets. */
  lemma InstanceHolds(t: Type, at: seq<nat>)
    requires WellFormed(t) && t.Value? && |at| == |t.fields|
    requires forall i | 0 <= i < |t.fields| && !t.fields[i].Empty? :: at[i] == Start(t.fields, i)
    ensures Holds(t, at, StoredSize(t))
  {
    AlignIsExact(t, t.valueSize);
    forall i | 0 <= i < |t.fields| && !t.fields[i].Empty? ensures at[i] + StoredSize(t.fields[i]) <= t.valueSize {
      FieldsApart(t.fields, i, |t.fields|);
      SizeIsStored(t.fields[i]);
    }
  }

  // ---- where the references are ----------------------------------------------------------------

  /** Flattening `t` puts a reference at byte `o`. */
  ghost predicate RefAt(t: Type, o: int)
    decreases t
  {
    match t
    case Ref => o == 0
    case Value(fs, _, _, _) => exists i | 0 <= i < |fs| :: !fs[i].Empty? && RefAt(fs[i], o - Start(fs, i))
    case VArray(c, n) => exists k: nat | k < n :: RefAt(c, o - Times(k, Size(c)))
    case _ => false
  }

  ghost predicate HasRefs(t: Type) {
    match t
    case Ref => true
    case Value(fs, _, _, _) => exists i | 0 <= i < |fs| :: HasRefs(fs[i])
    case VArray(c, n) => n > 0 && HasRefs(c)
    case _ => false
  }

  lemma RefsAreFlagged(t: Type)
    requires WellFormed(t) && HasRefs(t)
    ensures Flagged(t)
  {
    if t.Value? {
      var i :| 0 <= i < |t.fields| && HasRefs(t.fields[i]);
      RefsAreFlagged(t.fields[i]);
    }
  }

  /** Whatever is flagged is aligned for pointers. */
  lemma FlaggedIsAligned(t: Type)
    requires WellFormed(t) && Flagged(t)
    ensures Aligned(AlignOf(t), PTR)
  {
    if t.Value? {
      FlaggedField(t.fields, t.valueAlign);
    }
  }

  lemma FlaggedField(fs: seq<Type>, align: Pos)
    requires AllWellFormed(fs) && align == MaxAlign(fs, |fs|) && AnyFlagged(fs, |fs|)
    ensures Aligned(align, PTR)
  {
    var i :| 0 <= i < |fs| && Flagged(fs[i]);
    FlaggedIsAligned(fs[i]);
    AlignIsPower(fs[i]);
    MaxAlignIsPower(fs, |fs|);
    PowersDivide(AlignOf(fs[i]), align);
    Coarser(align, PTR, AlignOf(fs[i]));
  }

  lemma RefsAligned(t: Type, x: nat)
    requires WellFormed(t) && Flagged(t) && Aligned(x, AlignOf(t))
    ensures Aligned(x, PTR)
  {
    FlaggedIsAligned(t);
    Coarser(x, PTR, AlignOf(t));
  }

  /** References lie within their type, on pointer boundaries. */
  lemma {:induction false} RefWithin(t: Type, o: int)
    requires WellFormed(t) && RefAt(t, o)
    ensures HasRefs(t) && o >= 0 && Aligned(o, PTR) && o + PTR <= Size(t)
    decreases t, 0
  {
    match t {
      case Ref =>
      case Value(fs, align, _, _) =>
        var i :| 0 <= i < |fs| && !fs[i].Empty? && RefAt(fs[i], o - Start(fs, i));
        FieldRefWithin(fs, i, o - Start(fs, i));
      case VArray(c, n) =>
        var k: nat :| k < n && RefAt(c, o - Times(k, Size(c)));
        ElementRefWithin(c, n, k, o - Times(k, Size(c)));
      case _ =>
    }
  }

  lemma {:induction false} FieldRefWithin(fs: seq<Type>, i: nat, o: int)
    requires AllWellFormed(fs) && i < |fs| && !fs[i].Empty? && RefAt(fs[i], o)
    ensures HasRefs(fs[i]) && o >= 0 && o + PTR <= Size(fs[i])
    ensures Aligned(Start(fs, i) + o, PTR) && Start(fs, i) + o + PTR <= End(fs, |fs|)
    decreases fs, 0
  {
    RefWithin(fs[i], o);
    FieldsApart(fs, i, |fs|);
    RefsAreFlagged(fs[i]);
    RefsAligned(fs[i], Start(fs, i));
    AlignedSum(Start(fs, i), o, PTR);
  }

  lemma {:induction false} ElementRefWithin(c: Type, n: nat, k: nat, o: int)
    requires WellFormed(c) && k < n && RefAt(c, o)
    ensures HasRefs(c) && o >= 0 && o + PTR <= Size(c)
    ensures Aligned(Times(k, Size(c)) + o, PTR) && Times(k, Size(c)) + o + PTR <= Size(VArray(c, n))
    decreases c, 1
  {
    RefWithin(c, o);
    ArraySize(c, n);
    RefsAreFlagged(c);
    SizeIsMultiple(c);
    RefsAligned(c, Size(c));
    TimesAligned(k, Size(c), PTR);
    AlignedSum(Times(k, Size(c)), o, PTR);
    TimesMonotone(k, n, Size(c));
  }

  // ---- the collector's walk --------------------------------------------------------------------

  /** Where the walk over a field leaves the cursor. An array advances it only element by element. */
  ghost function After(t: Type, cur: nat): nat
    decreases t, 0
  {
    match t
    case Empty => cur
    case VArray(c, n) => AfterMany(c, n, cur)
    case _ => Up(cur, AlignOf(t)) + Size(t)
  }

  ghost function AfterMany(c: Type, n: nat, cur: nat): nat
    decreases c, n + 1
  {
    if n == 0 then cur else After(c, AfterMany(c, n - 1, cur))
  }

  /** The cursor after the first `n` fields. */
  ghost function Cursor(fs: seq<Type>, n: nat): nat
    requires n <= |fs|
  {
    if n == 0 then 0 else After(fs[n - 1], Cursor(fs, n - 1))
  }

  /** Walking `t` from `cur` marks the word at byte `o`. */
  ghost predicate Marks(t: Type, cur: nat, o: int)
    decreases t, 1
  {
    match t
    case Ref => o == Up(cur, PTR)
    case Value(_, align, _, _) => MarksValue(t, o - Up(cur, align))
    case VArray(c, n) => exists k: nat | k < n :: Marks(c, AfterMany(c, k, cur), o)
    case _ => false
  }

  /** The bitmap computed for a value has the word at byte `o` set. */
  ghost predicate MarksValue(t: Type, o: int)
    requires t.Value?
    decreases t, 0
  {
    t.flag && exists i | 0 <= i < |t.fields| :: Marks(t.fields[i], Cursor(t.fields, i), o)
  }

  /** An array without a single element, however deep. */
  predicate Hollow(t: Type) {
    t.VArray? && (t.length == 0 || Hollow(t.component))
  }

  lemma HollowSize(t: Type)
    requires WellFormed(t) && Hollow(t)
    ensures Size(t) == 0 && !HasRefs(t)
  {
    ArraySize(t.component, t.length);
    if t.length > 0 {
      HollowSize(t.component);
      TimesZero(t.length);
    }
  }

  lemma TimesZero(n: nat)
    ensures Times(n, 0) == 0
  {
  }

  lemma AfterHollow(t: Type, cur: nat)
    requires Hollow(t)
    ensures After(t, cur) == cur
    decreases t, 0
  {
    if t.length > 0 {
      AfterManyHollow(t.component, t.length, cur);
    }
  }

  lemma AfterManyHollow(c: Type, n: nat, cur: nat)
    requires Hollow(c)
    ensures AfterMany(c, n, cur) == cur
    decreases c, n + 1
  {
    if n > 0 {
      AfterManyHollow(c, n - 1, cur);
      AfterHollow(c, cur);
    }
  }

  /** Any other field leaves the cursor where the layout does. */
  lemma AfterSolid(t: Type, cur: nat)
    requires WellFormed(t) && !Hollow(t) && t != Empty
    ensures After(t, cur) == Up(cur, AlignOf(t)) + Size(t)
    decreases t, 0
  {
    if t.VArray? {
      AfterManySolid(t.component, t.length, cur);
      ArraySize(t.component, t.length);
    }
  }

  lemma {:induction false} AfterManySolid(c: Type, n: nat, cur: nat)
    requires WellFormed(c) && !Hollow(c) && n > 0
    ensures AfterMany(c, n, cur) == Up(cur, AlignOf(c)) + Times(n, Size(c))
    decreases c, n + 1
  {
    SizeIsMultiple(c);
    if n > 1 {
      AfterManySolid(c, n - 1, cur);
      TimesAligned(n - 1, Size(c), AlignOf(c));
      AlignedSum(Up(cur, AlignOf(c)), Times(n - 1, Size(c)), AlignOf(c));
      UpExact(AfterMany(c, n - 1, cur), AlignOf(c));
    } else {
      assert AfterMany(c, 0, cur) == cur && Times(0, Size(c)) == 0;
    }
    AfterStep(c, AfterMany(c, n - 1, cur));
  }

  lemma AfterStep(c: Type, cur: nat)
    requires WellFormed(c) && !Hollow(c)
    ensures After(c, cur) == Up(cur, AlignOf(c)) + Size(c)
    decreases c, 1
  {
    if c == Empty {
      UpOne(cur);
    } else {
      AfterSolid(c, cur);
    }
  }

  lemma UpOne(x: nat)
    ensures Up(x, 1) == x
  {
  }

  /** Element `k` is walked from where it lies, counted from the aligned start. */
  lemma ElementCursor(c: Type, k: nat, cur: nat)
    requires WellFormed(c) && !Hollow(c)
    ensures Up(AfterMany(c, k, cur), AlignOf(c)) == Up(cur, AlignOf(c)) + Times(k, Size(c))
  {
    if k > 0 {
      AfterManySolid(c, k, cur);
      SizeIsMultiple(c);
      TimesAligned(k, Size(c), AlignOf(c));
      AlignedSum(Up(cur, AlignOf(c)), Times(k, Size(c)), AlignOf(c));
      UpExact(AfterMany(c, k, cur), AlignOf(c));
    }
  }

  lemma AfterGrows(t: Type, cur: nat)
    ensures cur <= After(t, cur)
    decreases t, 0
  {
    if t.VArray? {
      AfterManyGrows(t.component, 0, t.length, cur);
    }
  }

  lemma AfterManyGrows(c: Type, k: nat, n: nat, cur: nat)
    requires k <= n
    ensures AfterMany(c, k, cur) <= AfterMany(c, n, cur)
    decreases c, n + 1
  {
    if k < n {
      AfterManyGrows(c, k, n - 1, cur);
      AfterGrows(c, AfterMany(c, n - 1, cur));
    }
  }

  lemma CursorGrows(fs: seq<Type>, i: nat, j: nat)
    requires i <= j <= |fs|
    ensures Cursor(fs, i) <= Cursor(fs, j)
  {
    if i < j {
      CursorGrows(fs, i, j - 1);
      AfterGrows(fs[j - 1], Cursor(fs, j - 1));
    }
  }

  /** The walk never gets ahead of the layout. */
  lemma {:induction false} CursorBehind(fs: seq<Type>, n: nat)
    requires AllWellFormed(fs) && n <= |fs|
    ensures Cursor(fs, n) <= End(fs, n)
    ensures n < |fs| ==> Up(Cursor(fs, n), AlignOf(fs[n])) <= Start(fs, n)
  {
    if n > 0 {
      var f := fs[n - 1];
      CursorBehind(fs, n - 1);
      if Hollow(f) {
        AfterHollow(f, Cursor(fs, n - 1));
      } else if f != Empty {
        AfterSolid(f, Cursor(fs, n - 1));
      }
    }
    if n < |fs| {
      UpMonotone(Cursor(fs, n), End(fs, n), AlignOf(fs[n]));
    }
  }

  /** Marks lie between the aligned cursor and where the walk leaves it. */
  lemma {:induction false} MarkWithin(t: Type, cur: nat, o: int)
    requires WellFormed(t) && Marks(t, cur, o)
    ensures Up(cur, AlignOf(t)) <= o && o + PTR <= After(t, cur)
    decreases t, 1
  {
    match t {
      case Ref =>
      case Value(_, align, _, _) => ValueMarkWithin(t, o - Up(cur, align));
      case VArray(c, n) =>
        var k: nat :| k < n && Marks(c, AfterMany(c, k, cur), o);
        ElementMarkWithin(c, k, n, cur, o);
      case _ =>
    }
  }

  lemma {:induction false} ElementMarkWithin(c: Type, k: nat, n: nat, cur: nat, o: int)
    requires WellFormed(c) && k < n && Marks(c, AfterMany(c, k, cur), o)
    ensures Up(cur, AlignOf(c)) <= o && AfterMany(c, k, cur) <= o && o + PTR <= AfterMany(c, n, cur)
    decreases c, 2
  {
    MarkWithin(c, AfterMany(c, k, cur), o);
    AfterManyGrows(c, 0, k, cur);
    AfterManyGrows(c, k + 1, n, cur);
    UpMonotone(cur, AfterMany(c, k, cur), AlignOf(c));
  }

  lemma {:induction false} ValueMarkWithin(t: Type, o: int)
    requires WellFormed(t) && t.Value? && MarksValue(t, o)
    ensures 0 <= o && o + PTR <= Size(t)
    decreases t, 0
  {
    var i :| 0 <= i < |t.fields| && Marks(t.fields[i], Cursor(t.fields, i), o);
    FieldMarkWithin(t.fields, i, o);
    CursorBehind(t.fields, |t.fields|);
  }

  lemma {:induction false} FieldMarkWithin(fs: seq<Type>, i: nat, o: int)
    requires AllWellFormed(fs) && i < |fs| && Marks(fs[i], Cursor(fs, i), o)
    ensures Cursor(fs, i) <= o && o + PTR <= Cursor(fs, i + 1) <= Cursor(fs, |fs|)
    decreases fs, 0
  {
    MarkWithin(fs[i], Cursor(fs, i), o);
    CursorGrows(fs, i + 1, |fs|);
  }

  // ---- when the walk is right ------------------------------------------------------------------

  /** Every field that holds references is walked from where the layout put it, at every depth. */
  ghost predicate InStep(t: Type) {
    match t
    case Value(fs, _, _, _) => forall i | 0 <= i < |fs| :: HasRefs(fs[i]) ==> Reached(fs, i) && InStep(fs[i])
    case VArray(c, n) => n == 0 || InStep(c)
    case _ => true
  }

  ghost predicate Reached(fs: seq<Type>, i: nat)
    requires i < |fs|
  {
    Up(Cursor(fs, i), AlignOf(fs[i])) == Start(fs, i)
  }

  lemma {:induction false} NoMarks(t: Type, cur: nat, o: int)
    requires !HasRefs(t)
    ensures !Marks(t, cur, o)
  {
    match t {
      case Value(fs, align, _, _) =>
        forall i | 0 <= i < |fs| ensures !Marks(fs[i], Cursor(fs, i), o - Up(cur, align)) {
          NoMarks(fs[i], Cursor(fs, i), o - Up(cur, align));
        }
      case VArray(c, n) =>
        forall k: nat | k < n ensures !Marks(c, AfterMany(c, k, cur), o) {
          NoMarks(c, AfterMany(c, k, cur), o);
        }
      case _ =>
    }
  }

  lemma NoRefs(t: Type, o: int)
    requires WellFormed(t) && !HasRefs(t)
    ensures !RefAt(t, o)
  {
    if RefAt(t, o) {
      RefWithin(t, o);
    }
  }

  /** In step, the walk marks exactly the references. */
  lemma {:induction false} MarksAreRefs(t: Type, cur: nat, o: int)
    requires WellFormed(t) && InStep(t)
    ensures Marks(t, cur, o) <==> RefAt(t, o - Up(cur, AlignOf(t)))
    decreases t, 1
  {
    match t {
      case Value(_, align, _, _) => ValueMarksAreRefs(t, o - Up(cur, align));
      case VArray(c, n) => if n > 0 { ArrayMarksAreRefs(c, n, cur, o); }
      case _ =>
    }
  }

  lemma {:induction false} ArrayMarksAreRefs(c: Type, n: nat, cur: nat, o: int)
    requires WellFormed(c) && InStep(c)
    ensures Marks(VArray(c, n), cur, o) <==> RefAt(VArray(c, n), o - Up(cur, AlignOf(c)))
    decreases c, 2
  {
    if Hollow(c) {
      HollowSize(c);
      NoMarks(VArray(c, n), cur, o);
      NoRefs(VArray(c, n), o - Up(cur, AlignOf(c)));
    } else {
      var base := o - Up(cur, AlignOf(c));
      forall k: nat | k < n ensures Marks(c, AfterMany(c, k, cur), o) <==> RefAt(c, base - Times(k, Size(c))) {
        ElementCursor(c, k, cur);
        MarksAreRefs(c, AfterMany(c, k, cur), o);
      }
      assert Marks(VArray(c, n), cur, o) <==> exists k: nat | k < n :: Marks(c, AfterMany(c, k, cur), o);
      assert RefAt(VArray(c, n), base) <==> exists k: nat | k < n :: RefAt(c, base - Times(k, Size(c)));
    }
  }

  lemma FieldMarksAreRefs(fs: seq<Type>, i: nat, o: int)
    requires AllWellFormed(fs) && i < |fs| && (HasRefs(fs[i]) ==> Reached(fs, i) && InStep(fs[i]))
    ensures Marks(fs[i], Cursor(fs, i), o) <==> RefField(fs, i, o)
    decreases fs, 0
  {
    if HasRefs(fs[i]) {
      MarksAreRefs(fs[i], Cursor(fs, i), o);
    } else {
      NoMarks(fs[i], Cursor(fs, i), o);
      NoRefs(fs[i], o - Start(fs, i));
    }
  }

  /** Field `i` puts a reference at byte `o`. */
  ghost predicate RefField(fs: seq<Type>, i: nat, o: int)
    requires i < |fs|
  {
    !fs[i].Empty? && RefAt(fs[i], o - Start(fs, i))
  }

  lemma RefInField(t: Type, o: int)
    requires t.Value?
    ensures RefAt(t, o) <==> exists i | 0 <= i < |t.fields| :: RefField(t.fields, i, o)
  {
    if RefAt(t, o) {
      var i :| 0 <= i < |t.fields| && !t.fields[i].Empty? && RefAt(t.fields[i], o - Start(t.fields, i));
      assert RefField(t.fields, i, o);
    }
    if i :| 0 <= i < |t.fields| && RefField(t.fields, i, o) {
      assert RefAt(t.fields[i], o - Start(t.fields, i));
    }
  }

  lemma {:induction false} ValueMarksAreRefs(t: Type, o: int)
    requires WellFormed(t) && t.Value? && InStep(t)
    ensures MarksValue(t, o) <==> RefAt(t, o)
    decreases t, 0
  {
    forall i | 0 <= i < |t.fields| ensures Marks(t.fields[i], Cursor(t.fields, i), o) <==> RefField(t.fields, i, o) {
      FieldMarksAreRefs(t.fields, i, o);
    }
    RefInField(t, o);
    if RefAt(t, o) {
      RefsFlag(t, o);
    }
  }

  lemma RefsFlag(t: Type, o: int)
    requires WellFormed(t) && RefAt(t, o)
    ensures Flagged(t)
  {
    RefWithin(t, o);
    RefsAreFlagged(t);
  }

  // ---- out of step, the bitmap is wrong --------------------------------------------------------

  ghost function FirstWith(fs: seq<Type>, i: nat): (k: nat)
    requires exists j | i <= j < |fs| :: HasRefs(fs[j])
    ensures i <= k < |fs| && HasRefs(fs[k]) && forall j | i <= j < k :: !HasRefs(fs[j])
    decreases |fs| - i
  {
    if HasRefs(fs[i]) then i else FirstWith(fs, i + 1)
  }

  /** The byte of the first reference. */
  ghost function First(t: Type): nat
    requires HasRefs(t)
    decreases t
  {
    if t.Value? then var i := FirstWith(t.fields, 0); Start(t.fields, i) + First(t.fields[i])
    else if t.VArray? then First(t.component)
    else 0
  }

  lemma {:induction false} FirstIsRef(t: Type)
    requires WellFormed(t) && HasRefs(t)
    ensures RefAt(t, First(t))
  {
    match t {
      case Ref =>
      case Value(fs, _, _, _) =>
        var i := FirstWith(fs, 0);
        FirstIsRef(fs[i]);
        assert RefField(fs, i, First(t));
        RefInField(t, First(t));
      case VArray(c, n) =>
        FirstIsRef(c);
        assert Times(0, Size(c)) == 0 && RefAt(c, First(c) - Times(0, Size(c)));
      case _ =>
    }
  }

  lemma {:induction false} FirstIsLeast(t: Type, o: int)
    requires WellFormed(t) && RefAt(t, o)
    ensures HasRefs(t) && First(t) <= o
    decreases t, 0
  {
    RefWithin(t, o);
    match t {
      case Ref =>
      case Value(fs, _, _, _) =>
        RefInField(t, o);
        var j :| 0 <= j < |fs| && RefField(fs, j, o);
        FirstFieldIsLeast(fs, j, o);
      case VArray(c, n) =>
        var k: nat :| k < n && RefAt(c, o - Times(k, Size(c)));
        FirstIsLeast(c, o - Times(k, Size(c)));
      case _ =>
    }
  }

  lemma {:induction false} FirstFieldIsLeast(fs: seq<Type>, j: nat, o: int)
    requires AllWellFormed(fs) && j < |fs| && RefField(fs, j, o)
    ensures HasRefs(fs[j])
    ensures var i := FirstWith(fs, 0); Start(fs, i) + First(fs[i]) <= o
    decreases fs, 0
  {
    RefWithin(fs[j], o - Start(fs, j));
    FirstIsLeast(fs[j], o - Start(fs, j));
    var i := FirstWith(fs, 0);
    if i < j {
      FirstIsRef(fs[i]);
      RefWithin(fs[i], First(fs[i]));
      FieldsApart(fs, i, j);
    }
  }

  /** Some mark is not behind the first reference, counted from the cursor. */
  lemma {:induction false} FirstMark(t: Type, cur: nat) returns (o: int)
    requires WellFormed(t) && HasRefs(t)
    ensures Marks(t, cur, o) && o <= Up(cur, AlignOf(t)) + First(t)
    decreases t, 1
  {
    if t.Value? {
      var w := FirstValueMark(t);
      o := w + Up(cur, t.valueAlign);
      Shifted(t, cur, w, o);
    } else if t.VArray? {
      o := FirstMark(t.component, cur);
      assert AfterMany(t.component, 0, cur) == cur && Marks(t.component, AfterMany(t.component, 0, cur), o);
    } else {
      o := Up(cur, PTR);
    }
  }

  lemma {:induction false} FirstValueMark(t: Type) returns (o: int)
    requires WellFormed(t) && t.Value? && HasRefs(t)
    ensures MarksValue(t, o) && o <= First(t)
    decreases t, 0
  {
    var i := FirstWith(t.fields, 0);
    o := FirstMark(t.fields[i], Cursor(t.fields, i));
    CursorBehind(t.fields, i);
    RefsAreFlagged(t);
  }

  /** A field in step ends where the walk leaves it. */
  lemma ReachedEnd(fs: seq<Type>, j: nat)
    requires AllWellFormed(fs) && j < |fs| && HasRefs(fs[j]) && Reached(fs, j)
    ensures Cursor(fs, j + 1) == Start(fs, j) + Size(fs[j])
  {
    if Hollow(fs[j]) {
      HollowSize(fs[j]);
    } else {
      AfterSolid(fs[j], Cursor(fs, j));
    }
  }

  /** No reference is at a mark made too early by the first field out of place. */
  lemma StrayMark(fs: seq<Type>, i: nat, j: nat, o: int)
    requires AllWellFormed(fs) && i < |fs| && j < |fs| && HasRefs(fs[i])
    requires forall k | 0 <= k < i :: HasRefs(fs[k]) ==> Reached(fs, k)
    requires Cursor(fs, i) <= o < Start(fs, i) + First(fs[i])
    ensures !RefField(fs, j, o)
  {
    if RefField(fs, j, o) {
      RefWithin(fs[j], o - Start(fs, j));
      if j < i {
        ReachedEnd(fs, j);
        CursorGrows(fs, j + 1, i);
      } else if j == i {
        FirstIsLeast(fs[i], o - Start(fs, i));
      } else {
        FirstIsRef(fs[i]);
        RefWithin(fs[i], First(fs[i]));
        FieldsApart(fs, i, j);
      }
    }
  }

  /** Within a field that is in place, only that field makes marks and holds references. */
  lemma OnlyField(fs: seq<Type>, i: nat, j: nat, o: int)
    requires AllWellFormed(fs) && i < |fs| && j < |fs| && i != j && HasRefs(fs[i]) && Reached(fs, i)
    requires Start(fs, i) <= o < Start(fs, i) + Size(fs[i])
    ensures !RefField(fs, j, o) && !Marks(fs[j], Cursor(fs, j), o)
  {
    ReachedEnd(fs, i);
    if Marks(fs[j], Cursor(fs, j), o) {
      FieldMarkWithin(fs, j, o);
      if j < i { CursorGrows(fs, j + 1, i); } else { CursorGrows(fs, i + 1, j); }
    }
    if RefField(fs, j, o) {
      RefWithin(fs[j], o - Start(fs, j));
      if j < i { FieldsApart(fs, j, i); } else { FieldsApart(fs, i, j); }
    }
  }

  ghost predicate Bad(fs: seq<Type>, i: nat)
    requires i < |fs|
  {
    HasRefs(fs[i]) && !(Reached(fs, i) && InStep(fs[i]))
  }

  ghost function FirstBad(fs: seq<Type>, i: nat): (k: nat)
    requires i <= |fs| && exists j | i <= j < |fs| :: Bad(fs, j)
    ensures i <= k < |fs| && Bad(fs, k) && forall j | i <= j < k :: !Bad(fs, j)
    decreases |fs| - i
  {
    if Bad(fs, i) then i else FirstBad(fs, i + 1)
  }

  /** Out of step, some word is marked without holding a reference, or the other way round. */
  lemma {:induction false} Wrong(t: Type, cur: nat) returns (o: int)
    requires WellFormed(t) && HasRefs(t) && !InStep(t)
    ensures Up(cur, AlignOf(t)) <= o < Up(cur, AlignOf(t)) + Size(t)
    ensures Marks(t, cur, o) != RefAt(t, o - Up(cur, AlignOf(t)))
    decreases t, 1
  {
    if t.Value? {
      o := WrongNested(t, cur);
    } else {
      assert t.VArray? && t.length > 0 && HasRefs(t.component) && !InStep(t.component);
      o := WrongArray(t.component, t.length, cur);
    }
  }

  lemma {:induction false} WrongNested(t: Type, cur: nat) returns (o: int)
    requires WellFormed(t) && t.Value? && HasRefs(t) && !InStep(t)
    ensures Up(cur, AlignOf(t)) <= o < Up(cur, AlignOf(t)) + Size(t)
    ensures Marks(t, cur, o) != RefAt(t, o - Up(cur, AlignOf(t)))
    decreases t, 0, 1
  {
    var w := WrongValue(t);
    o := w + Up(cur, t.valueAlign);
    Shifted(t, cur, w, o);
  }

  lemma Shifted(t: Type, cur: nat, w: int, o: int)
    requires t.Value? && o == w + Up(cur, t.valueAlign)
    ensures Marks(t, cur, o) <==> MarksValue(t, w)
    ensures o - Up(cur, t.valueAlign) == w
  {
  }

  lemma {:induction false} WrongArray(c: Type, n: nat, cur: nat) returns (o: int)
    requires WellFormed(c) && n > 0 && HasRefs(c) && !InStep(c)
    ensures Up(cur, AlignOf(c)) <= o < Up(cur, AlignOf(c)) + Size(VArray(c, n))
    ensures Marks(VArray(c, n), cur, o) != RefAt(VArray(c, n), o - Up(cur, AlignOf(c)))
    decreases c, 2
  {
    o := Wrong(c, cur);
    ArraySize(c, n);
    TimesMonotone(0, n, Size(c));
    FirstElementMarks(c, n, cur, o);
    FirstElementRefs(c, n, cur, o);
  }

  lemma FirstElementMarks(c: Type, n: nat, cur: nat, o: int)
    requires WellFormed(c) && n > 0 && HasRefs(c) && o < Up(cur, AlignOf(c)) + Size(c)
    ensures Marks(VArray(c, n), cur, o) <==> Marks(c, cur, o)
  {
    assert AfterMany(c, 0, cur) == cur;
    forall k: nat | 0 < k < n ensures !Marks(c, AfterMany(c, k, cur), o) {
      LaterElement(c, k, cur, o);
    }
    if Marks(c, cur, o) {
      assert Marks(c, AfterMany(c, 0, cur), o);
    }
  }

  lemma FirstElementRefs(c: Type, n: nat, cur: nat, o: int)
    requires WellFormed(c) && n > 0 && HasRefs(c) && o < Up(cur, AlignOf(c)) + Size(c)
    ensures var base := o - Up(cur, AlignOf(c)); RefAt(VArray(c, n), base) <==> RefAt(c, base)
  {
    var base := o - Up(cur, AlignOf(c));
    forall k: nat | 0 < k < n ensures !RefAt(c, base - Times(k, Size(c))) {
      LaterElement(c, k, cur, o);
    }
    assert base - Times(0, Size(c)) == base;
    if RefAt(c, base) {
      assert RefAt(c, base - Times(0, Size(c)));
    }
  }

  /** Elements after the first neither mark nor hold references within the first. */
  lemma LaterElement(c: Type, k: nat, cur: nat, o: int)
    requires WellFormed(c) && HasRefs(c) && k > 0 && o < Up(cur, AlignOf(c)) + Size(c)
    ensures !Marks(c, AfterMany(c, k, cur), o) && !RefAt(c, o - Up(cur, AlignOf(c)) - Times(k, Size(c)))
  {
    TimesMonotone(0, k, Size(c));
    if RefAt(c, o - Up(cur, AlignOf(c)) - Times(k, Size(c))) {
      RefWithin(c, o - Up(cur, AlignOf(c)) - Times(k, Size(c)));
    }
    if Hollow(c) {
      HollowSize(c);
    } else {
      AfterManySolid(c, k, cur);
      if Marks(c, AfterMany(c, k, cur), o) {
        MarkWithin(c, AfterMany(c, k, cur), o);
      }
    }
  }

  lemma {:induction false} WrongValue(t: Type) returns (o: int)
    requires WellFormed(t) && t.Value? && HasRefs(t) && !InStep(t)
    ensures 0 <= o < Size(t) && MarksValue(t, o) != RefAt(t, o)
    decreases t, 0, 0
  {
    var fs := t.fields;
    var b :| 0 <= b < |fs| && HasRefs(fs[b]) && !(Reached(fs, b) && InStep(fs[b]));
    assert Bad(fs, b);
    var i := FirstBad(fs, 0);
    if Reached(fs, i) {
      o := WrongInside(fs, i);
      RefsAreFlagged(t);
      RefInField(t, o);
    } else {
      o := WrongPlace(fs, i);
      RefsAreFlagged(t);
      RefInField(t, o);
    }
    FieldsApart(fs, i, |fs|);
  }

  lemma {:induction false} WrongInside(fs: seq<Type>, i: nat) returns (o: int)
    requires AllWellFormed(fs) && i < |fs| && HasRefs(fs[i]) && Reached(fs, i) && !InStep(fs[i])
    ensures Start(fs, i) <= o < Start(fs, i) + Size(fs[i])
    ensures Marks(fs[i], Cursor(fs, i), o) != RefField(fs, i, o)
    ensures forall j | 0 <= j < |fs| && j != i :: !RefField(fs, j, o) && !Marks(fs[j], Cursor(fs, j), o)
    decreases fs, 0
  {
    o := Wrong(fs[i], Cursor(fs, i));
    forall j | 0 <= j < |fs| && j != i ensures !RefField(fs, j, o) && !Marks(fs[j], Cursor(fs, j), o) {
      OnlyField(fs, i, j, o);
    }
  }

  lemma WrongPlace(fs: seq<Type>, i: nat) returns (o: int)
    requires AllWellFormed(fs) && i < |fs| && HasRefs(fs[i]) && !Reached(fs, i)
    requires forall j | 0 <= j < i :: !Bad(fs, j)
    ensures 0 <= o < Start(fs, i) + Size(fs[i]) && Marks(fs[i], Cursor(fs, i), o)
    ensures forall j | 0 <= j < |fs| :: !RefField(fs, j, o)
  {
    o := FirstMark(fs[i], Cursor(fs, i));
    MarkWithin(fs[i], Cursor(fs, i), o);
    CursorBehind(fs, i);
    FirstIsRef(fs[i]);
    RefWithin(fs[i], First(fs[i]));
    forall k | 0 <= k < i ensures HasRefs(fs[k]) ==> Reached(fs, k) {
      assert !Bad(fs, k);
    }
    forall j | 0 <= j < |fs| ensures !RefField(fs, j, o) {
      StrayMark(fs, i, j, o);
    }
  }

  // ---- the condition, from the layout alone ----------------------------------------------------

  /** The fields other than arrays without elements. */
  function Kept(fs: seq<Type>): seq<Type> {
    if fs == [] then []
    else Kept(fs[..|fs| - 1]) + if Hollow(fs[|fs| - 1]) then [] else [fs[|fs| - 1]]
  }

  /** Field `i` keeps its place when the arrays without elements before it are dropped. */
  ghost predicate Unmoved(fs: seq<Type>, i: nat)
    requires i < |fs|
  {
    var before := Kept(fs[..i]);
    Up(End(before, |before|), AlignOf(fs[i])) == Start(fs, i)
  }

  /** Dropping arrays without elements moves no field that holds references, at any depth. */
  ghost predicate Tight(t: Type) {
    match t
    case Value(fs, _, _, _) => forall i | 0 <= i < |fs| :: HasRefs(fs[i]) ==> Unmoved(fs, i) && Tight(fs[i])
    case VArray(c, n) => n == 0 || Tight(c)
    case _ => true
  }

  lemma {:induction false} EndOfPrefix(fs: seq<Type>, gs: seq<Type>, n: nat)
    requires n <= |fs|
    ensures End(fs + gs, n) == End(fs, n)
  {
    if n > 0 {
      EndOfPrefix(fs, gs, n - 1);
      assert (fs + gs)[n - 1] == fs[n - 1];
    }
  }

  /** The walk is at the end of the fields it kept. */
  lemma {:induction false} CursorIsEnd(fs: seq<Type>, n: nat)
    requires AllWellFormed(fs) && n <= |fs|
    ensures Cursor(fs, n) == End(Kept(fs[..n]), |Kept(fs[..n])|)
  {
    if n > 0 {
      var f, before := fs[n - 1], Kept(fs[..n - 1]);
      CursorIsEnd(fs, n - 1);
      assert fs[..n][..n - 1] == fs[..n - 1];
      if Hollow(f) {
        AfterHollow(f, Cursor(fs, n - 1));
        assert before + [] == before;
      } else {
        EndOfPrefix(before, [f], |before|);
        if f != Empty {
          AfterSolid(f, Cursor(fs, n - 1));
        }
      }
    }
  }

  lemma {:induction false} TightIsInStep(t: Type)
    requires WellFormed(t)
    ensures Tight(t) <==> InStep(t)
  {
    match t {
      case Value(fs, _, _, _) =>
        forall i | 0 <= i < |fs| ensures (Unmoved(fs, i) <==> Reached(fs, i)) && (Tight(fs[i]) <==> InStep(fs[i])) {
          CursorIsEnd(fs, i);
          TightIsInStep(fs[i]);
        }
      case VArray(c, _) => TightIsInStep(c);
      case _ =>
    }
  }

  /** The bitmap of a value marks exactly its references if and only if dropping arrays without elements
      would move none of the fields that hold them. */
  lemma BitmapIff(t: Type)
    requires WellFormed(t) && t.Value?
    ensures (forall o: int :: MarksValue(t, o) <==> RefAt(t, o)) <==> Tight(t)
  {
    TightIsInStep(t);
    if InStep(t) {
      forall o: int ensures MarksValue(t, o) <==> RefAt(t, o) {
        ValueMarksAreRefs(t, o);
      }
    } else {
      OutOfStepHasRefs(t);
      var o := WrongValue(t);
    }
  }

  lemma OutOfStepHasRefs(t: Type)
    requires !InStep(t)
    ensures HasRefs(t)
  {
  }

  // ---- marks lie on words ----------------------------------------------------------------------

  lemma {:induction false} MarkAligned(t: Type, cur: nat, o: int)
    requires WellFormed(t) && Marks(t, cur, o)
    ensures o >= 0 && Aligned(o, PTR)
    decreases t, 1
  {
    match t {
      case Ref =>
      case Value(_, align, _, _) => NestedMarkAligned(t, o - Up(cur, align), Up(cur, align));
      case VArray(c, n) =>
        var k: nat :| k < n && Marks(c, AfterMany(c, k, cur), o);
        MarkAligned(c, AfterMany(c, k, cur), o);
      case _ =>
    }
  }

  lemma {:induction false} NestedMarkAligned(t: Type, w: int, base: nat)
    requires WellFormed(t) && t.Value? && MarksValue(t, w) && Aligned(base, t.valueAlign)
    ensures w >= 0 && Aligned(w + base, PTR)
    decreases t, 0, 1
  {
    ValueMarkAligned(t, w);
    RefsAligned(t, base);
    AlignedSum(w, base, PTR);
  }

  lemma {:induction false} ValueMarkAligned(t: Type, o: int)
    requires WellFormed(t) && t.Value? && MarksValue(t, o)
    ensures o >= 0 && Aligned(o, PTR)
    decreases t, 0, 0
  {
    var i :| 0 <= i < |t.fields| && Marks(t.fields[i], Cursor(t.fields, i), o);
    MarkAligned(t.fields[i], Cursor(t.fields, i), o);
  }

  lemma WrongWord(t: Type) returns (b: nat)
    requires WellFormed(t) && t.Value? && !InStep(t)
    ensures 8 * b < Size(t) && MarksValue(t, 8 * b) != RefAt(t, 8 * b)
  {
    OutOfStepHasRefs(t);
    var o := WrongValue(t);
    assert Aligned(o, PTR) by {
      if MarksValue(t, o) {
        ValueMarkAligned(t, o);
      } else {
        RefWithin(t, o);
      }
    }
    b := Quotient(o, PTR);
    assert o == 8 * b;
  }

  /** It is enough to look at words: unless the condition holds, some word is wrong. */
  lemma WordsIff(t: Type)
    requires WellFormed(t) && t.Value?
    ensures (forall b: nat | 8 * b < Size(t) :: MarksValue(t, 8 * b) <==> RefAt(t, 8 * b)) <==> Tight(t)
  {
    TightIsInStep(t);
    if InStep(t) {
      BitmapIff(t);
    } else {
      var b := WrongWord(t);
    }
  }

  /** No array without elements occurs, at any depth. */
  predicate Solid(t: Type) {
    match t
    case Value(fs, _, _, _) => forall f <- fs :: Solid(f)
    case VArray(c, n) => n > 0 && Solid(c)
    case _ => true
  }

  lemma SolidIsNotHollow(t: Type)
    requires Solid(t)
    ensures !Hollow(t)
  {
  }

  lemma SolidCursor(fs: seq<Type>, n: nat)
    requires AllWellFormed(fs) && n <= |fs| && forall f <- fs :: Solid(f)
    ensures Cursor(fs, n) == End(fs, n)
  {
    if n > 0 {
      SolidCursor(fs, n - 1);
      SolidIsNotHollow(fs[n - 1]);
      AfterStep(fs[n - 1], Cursor(fs, n - 1));
    }
  }

  /** Without empty arrays the condition always holds. */
  lemma SolidIsTight(t: Type)
    requires WellFormed(t) && Solid(t)
    ensures Tight(t)
  {
    SolidInStep(t);
    TightIsInStep(t);
  }

  lemma {:induction false} SolidInStep(t: Type)
    requires WellFormed(t) && Solid(t)
    ensures InStep(t)
  {
    match t {
      case Value(fs, _, _, _) =>
        forall i | 0 <= i < |fs| ensures Reached(fs, i) && InStep(fs[i]) {
          SolidCursor(fs, i);
          SolidInStep(fs[i]);
        }
      case VArray(c, n) => SolidInStep(c);
      case _ =>
    }
  }

  /** A byte, an empty array of longs, a byte and a reference: the layout puts the reference at byte 16,
      the walk marks byte 8. */
  lemma EmptyArrayMisplacesMark()
    ensures
      var fs := [Prim(1, 1), VArray(Prim(8, 8), 0), Prim(1, 1), Ref];
      var t := Value(fs, 8, 24, true);
      WellFormed(t) && MarksValue(t, 8) && RefAt(t, 16) && !Tight(t)
  {
    var fs := [Prim(1, 1), VArray(Prim(8, 8), 0), Prim(1, 1), Ref];
    var t := Value(fs, 8, 24, true);
    assert PowerOfTwo(2) && PowerOfTwo(4) && PowerOfTwo(8);
    UpUnique(0, 1, 0); UpUnique(1, 1, 1); UpUnique(1, 8, 8); UpUnique(2, 8, 8); UpUnique(0, 8, 0);
    UpUnique(8, 1, 8); UpUnique(9, 8, 16); UpUnique(24, 8, 24);
    assert End(fs, 1) == 1;
    assert Size(fs[1]) == 0 && End(fs, 2) == 8;
    assert Start(fs, 2) == 8 && End(fs, 3) == 9;
    assert Start(fs, 3) == 16 && End(fs, 4) == 24;
    assert Cursor(fs, 1) == 1;
    assert Cursor(fs, 2) == 1;
    assert Cursor(fs, 3) == 2;
    assert MaxAlign(fs, 1) == 1;
    assert MaxAlign(fs, 2) == 8;
    assert MaxAlign(fs, 3) == 8;
    assert MaxAlign(fs, 4) == 8;
    assert Flagged(fs[3]);
    assert Marks(fs[3], Cursor(fs, 3), 8);
    assert RefField(fs, 3, 16);
    RefInField(t, 16);
    assert HasRefs(fs[3]) && !Reached(fs, 3);
    TightIsInStep(t);
  }
}
