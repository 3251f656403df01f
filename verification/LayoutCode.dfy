/** The loops that compute layouts and reference bitmaps (runtime/src/TypeInfoManager.cpp), proved
    against `Layout`. */
module LayoutCode {

  import opened Alignment
  import opened Layout
  import opened Words

  // ---- sizes and offsets -----------------------------------------------------------------------

  method GetTypeSize(t: Type) returns (size: nat)
    ensures size == Size(t) && (WellFormed(t) ==> size == StoredSize(t))
  {
    size := Measure(t);
    if WellFormed(t) {
      SizeIsStored(t);
    }
  }

  method Measure(t: Type) returns (size: nat)
    ensures size == Size(t)
  {
    match t {
      case Empty => return 0;
      case Prim(s, _) => return s;
      case Ref => return PTR;
      case Value(fs, align, _, _) =>
        var total := 0;
        for idx := 0 to |fs|
          invariant total == End(fs, idx)
        {
          if fs[idx].Empty? {
            continue;
          }
          total := RoundUp(total, AlignOf(fs[idx]));
          var s := Measure(fs[idx]);
          total := total + s;
        }
        return RoundUp(total, align);
      case VArray(c, n) =>
        var total := 0;
        for idx := 0 to n
          invariant total == Elements(c, idx)
        {
          total := RoundUp(total, AlignOf(c));
          var s := Measure(c);
          total := total + s;
        }
        return RoundUp(total, AlignOf(c));
    }
  }

  /** What is left of a synchronization object after its header. */
  const SYNC_PAYLOAD: nat := 160

  /** What a type info stores besides the offsets of its fields. */
  datatype Stored = Stored(align: Pos, instanceSize: nat, hasRefField: bool)

  /** Lay out a type: `t` is the layout as a value. No other way to place the fields, suitably aligned, in order and
      without overlap, puts a field earlier or makes the instance smaller, and the alignment is what the scalars
      need. A type held by reference stores the alignment of a pointer, a synchronization class a fixed size. */
  method FillOffsets(fs: seq<Type>, offsets: array<nat>, isRef: bool, isSync: bool) returns (t: Type, stored: Stored)
    requires AllWellFormed(fs) && offsets.Length == |fs|
    modifies offsets
    ensures WellFormed(t) && t.Value? && t.fields == fs && Least(t, offsets[..], t.valueSize)
    ensures forall o: nat :: Suits(t, o) <==> Aligned(o, AlignOf(t))
    ensures stored.align == (if isRef then PTR else AlignOf(t))
    ensures stored.instanceSize == (if isSync then SYNC_PAYLOAD else t.valueSize)
    ensures stored.hasRefField == Flagged(t) == exists i | 0 <= i < |fs| :: Flagged(fs[i])
    ensures forall i | 0 <= i < |fs| :: offsets[i] == if fs[i].Empty? then old(offsets[i]) else Start(fs, i)
  {
    var align: Pos := 1;
    var hasRefField := false;
    var offset := 0;
    for idx := 0 to |fs|
      invariant align == MaxAlign(fs, idx) && offset == End(fs, idx)
      invariant hasRefField <==> AnyFlagged(fs, idx)
      invariant forall i | 0 <= i < |fs| ::
        offsets[i] == if i >= idx || fs[i].Empty? then old(offsets[i]) else Start(fs, i)
    {
      var f := fs[idx];
      if f.Empty? {
        continue;
      }
      if Flagged(f) {
        hasRefField := true;
      }
      offset := RoundUp(offset, AlignOf(f));
      offsets[idx] := offset;
      align := if align > AlignOf(f) then align else AlignOf(f);
      var s := GetTypeSize(f);
      offset := offset + s;
    }
    t := Value(fs, align, RoundUp(offset, align), hasRefField);
    stored := Stored(if isRef then PTR else align, if isSync then SYNC_PAYLOAD else t.valueSize, hasRefField);
    ComputedIsLeast(t, offsets[..]);
    forall o: nat ensures Suits(t, o) <==> Aligned(o, AlignOf(t)) {
      AlignIsExact(t, o);
    }
  }

  // ---- the bitmap ------------------------------------------------------------------------------

  function WordCount(size: nat): (n: nat)
    ensures size <= 8 * n < size + 8
  {
    (size + PTR - 1) / PTR
  }

  /** No word that reaches beyond the cursor is marked yet. */
  ghost predicate Clear(bits: seq<bool>, cur: nat) {
    forall b | 0 <= b < |bits| && 8 * b + 8 > cur :: !bits[b]
  }

  /** `now` has the marks of `before` and those of walking `t` from `cur`. */
  ghost predicate Marked(before: seq<bool>, now: seq<bool>, t: Type, cur: nat) {
    |now| == |before| && forall b | 0 <= b < |now| :: now[b] <==> before[b] || Marks(t, cur, 8 * b)
  }

  lemma MarkedClear(before: seq<bool>, now: seq<bool>, t: Type, cur: nat)
    requires WellFormed(t) && Marked(before, now, t, cur) && Clear(before, cur)
    ensures Clear(now, After(t, cur))
  {
    AfterGrows(t, cur);
    forall b | 0 <= b < |now| && 8 * b + 8 > After(t, cur) ensures !now[b] {
      if Marks(t, cur, 8 * b) {
        MarkWithin(t, cur, 8 * b);
      }
    }
  }

  lemma Divides(x: nat)
    requires Aligned(x, PTR)
    ensures 8 * (x / 8) == x
  {
    Open(x, PTR);
  }

  method GetGCTib(t: Type) returns (bits: seq<bool>)
    requires WellFormed(t) && t.Value?
    ensures |bits| == WordCount(t.valueSize)
    ensures forall b | 0 <= b < |bits| :: bits[b] <==> MarksValue(t, 8 * b)
    decreases t, 0
  {
    var fs := t.fields;
    bits := seq(WordCount(t.valueSize), _ => false);
    if !t.flag {
      return;
    }
    var cur := 0;
    CursorBehind(fs, |fs|);
    for idx := 0 to |fs|
      invariant cur == Cursor(fs, idx) && |bits| == WordCount(t.valueSize) && Clear(bits, cur)
      invariant forall b | 0 <= b < |bits| :: bits[b] <==> FieldsMark(fs, idx, 8 * b)
    {
      CursorGrows(fs, idx + 1, |fs|);
      ghost var before := bits;
      bits, cur := FillField(fs[idx], bits, cur);
      MarkedClear(before, bits, fs[idx], Cursor(fs, idx));
      FieldsMarkNext(fs, idx);
    }
  }

  method FillField(f: Type, bits: seq<bool>, cur: nat) returns (now: seq<bool>, next: nat)
    requires WellFormed(f) && Clear(bits, cur) && After(f, cur) <= 8 * |bits|
    ensures Marked(bits, now, f, cur) && next == After(f, cur)
    decreases f, 3
  {
    if f.Empty? {
      return bits, cur;
    }
    if f.VArray? {
      now, next := FillArray(f, bits, cur);
    } else {
      now, next := FillType(f, bits, cur);
    }
  }

  ghost predicate FieldsMark(fs: seq<Type>, n: nat, o: int)
    requires n <= |fs|
  {
    exists i | 0 <= i < n :: Marks(fs[i], Cursor(fs, i), o)
  }

  lemma FieldsMarkNext(fs: seq<Type>, n: nat)
    requires n < |fs|
    ensures forall o: int :: FieldsMark(fs, n + 1, o) <==> FieldsMark(fs, n, o) || Marks(fs[n], Cursor(fs, n), o)
  {
  }

  method FillType(t: Type, bits: seq<bool>, cur: nat) returns (now: seq<bool>, next: nat)
    requires WellFormed(t) && !t.VArray? && Clear(bits, cur) && After(t, cur) <= 8 * |bits|
    ensures Marked(bits, now, t, cur) && next == After(t, cur)
    decreases t, 1
  {
    now, next := bits, RoundUp(cur, AlignOf(t));
    if t.Ref? {
      Divides(next);
      now := now[next / 8 := true];
    } else if Flagged(t) {
      var nested := GetGCTib(t);
      RefsAligned(t, next);
      Divides(next);
      NestedFits(t, |nested|);
      now := now[..next / 8] + nested + now[next / 8 + |nested|..];
      Replaced(t, bits, now, cur, nested);
    }
    var s := GetTypeSize(t);
    next := next + s;
  }

  lemma NestedFits(t: Type, words: nat)
    requires WellFormed(t) && t.Value? && t.flag && words == WordCount(t.valueSize)
    ensures 8 * words == Size(t)
  {
    SizeIsMultiple(t);
    RefsAligned(t, Size(t));
    Divides(Size(t));
  }

  lemma Replaced(t: Type, bits: seq<bool>, now: seq<bool>, cur: nat, nested: seq<bool>)
    requires WellFormed(t) && t.Value? && t.flag && Clear(bits, cur)
    requires var at := Up(cur, AlignOf(t)) / 8;
      && 8 * at == Up(cur, AlignOf(t)) && at + |nested| <= |bits| && 8 * |nested| == Size(t)
      && now == bits[..at] + nested + bits[at + |nested|..]
    requires forall b | 0 <= b < |nested| :: nested[b] <==> MarksValue(t, 8 * b)
    ensures Marked(bits, now, t, cur)
  {
    var at := Up(cur, AlignOf(t)) / 8;
    forall b | 0 <= b < |now| ensures now[b] <==> bits[b] || Marks(t, cur, 8 * b) {
      NestedMark(t, cur, at, b);
      if at <= b < at + |nested| {
        assert now[b] == nested[b - at];
      } else {
        assert now[b] == bits[b];
        OutsideNested(t, at, |nested|, b);
      }
    }
  }

  lemma NestedMark(t: Type, cur: nat, at: nat, b: nat)
    requires t.Value? && 8 * at == Up(cur, AlignOf(t))
    ensures Marks(t, cur, 8 * b) <==> MarksValue(t, 8 * (b - at))
  {
    assert 8 * b - Up(cur, AlignOf(t)) == 8 * (b - at);
  }

  lemma OutsideNested(t: Type, at: nat, words: nat, b: nat)
    requires WellFormed(t) && t.Value? && 8 * words == Size(t) && !(at <= b < at + words)
    ensures !MarksValue(t, 8 * (b - at))
  {
    if MarksValue(t, 8 * (b - at)) {
      ValueMarkWithin(t, 8 * (b - at));
    }
  }

  method FillArray(t: Type, bits: seq<bool>, cur: nat) returns (now: seq<bool>, next: nat)
    requires WellFormed(t) && t.VArray? && Clear(bits, cur) && After(t, cur) <= 8 * |bits|
    ensures Marked(bits, now, t, cur) && next == After(t, cur)
    decreases t, 2
  {
    var c, n := t.component, t.length;
    now, next := bits, cur;
    for idx := 0 to n
      invariant next == AfterMany(c, idx, cur) && Clear(now, next)
      invariant Marked(bits, now, VArray(c, idx), cur)
    {
      AfterManyGrows(c, idx + 1, n, cur);
      ghost var before := now;
      if c.VArray? {
        now, next := FillArray(c, now, next);
      } else {
        now, next := FillType(c, now, next);
      }
      MarkedClear(before, now, c, AfterMany(c, idx, cur));
      OneMore(c, idx, cur, bits, before, now);
    }
  }

  lemma OneMore(c: Type, k: nat, cur: nat, bits: seq<bool>, before: seq<bool>, now: seq<bool>)
    requires Marked(bits, before, VArray(c, k), cur) && Marked(before, now, c, AfterMany(c, k, cur))
    ensures Marked(bits, now, VArray(c, k + 1), cur)
  {
    forall b | 0 <= b < |now| ensures now[b] <==> bits[b] || Marks(VArray(c, k + 1), cur, 8 * b) {
      MarksMore(c, k, cur, 8 * b);
    }
  }

  lemma MarksMore(c: Type, k: nat, cur: nat, o: int)
    ensures Marks(VArray(c, k + 1), cur, o) <==> Marks(VArray(c, k), cur, o) || Marks(c, AfterMany(c, k, cur), o)
  {
    if Marks(VArray(c, k + 1), cur, o) {
      var j: nat :| j < k + 1 && Marks(c, AfterMany(c, j, cur), o);
    }
  }

  // ---- the encodings ---------------------------------------------------------------------------

  /** A bitmap of fewer than 64 words fits a tagged integer, except on 32-bit platforms; any other is a
      sequence of bytes. */
  datatype GCTib = Tag(value: nat) | Bitmap(bytes: seq<nat>) {
    function Bits(): nat {
      if Tag? then 63 else 8 * |bytes|
    }

    ghost predicate Has(b: nat)
      requires Bitmap? ==> b < 8 * |bytes|
    {
      match this
      case Tag(value) => b < 63 && Bit(value, b)
      case Bitmap(bytes) => Bit(bytes[b / 8], b % 8)
    }
  }

  /** Either encoding gives back exactly the bits, and the tag is told from an address by its top bit. */
  method CalculateGCTib(bits: seq<bool>, narrow: bool) returns (tib: GCTib)
    ensures tib.Tag? <==> !narrow && |bits| < 64
    ensures tib.Tag? ==> tib.value < Pow2(64) && Bit(tib.value, 63)
    ensures tib.Tag? ==> forall b: nat :: tib.Has(b) <==> b < |bits| && bits[b]
    ensures tib.Bitmap? ==> |tib.bytes| == (|bits| + 7) / 8 && forall v <- tib.bytes :: v < 256
    ensures tib.Bitmap? ==> forall b: nat | b < 8 * |tib.bytes| :: tib.Has(b) <==> b < |bits| && bits[b]
  {
    if !narrow && |bits| < 64 {
      var value := ShortTag(bits);
      return Tag(value);
    }
    var bytes := Bytes(bits);
    return Bitmap(bytes);
  }

  method ShortTag(bits: seq<bool>) returns (value: nat)
    requires |bits| < 64
    ensures value < Pow2(64) && forall b: nat :: Bit(value, b) <==> b == 63 || (b < |bits| && bits[b])
  {
    value := 0;
    NoBits();
    for idx := 0 to |bits|
      invariant value < Pow2(64) && forall b: nat :: Bit(value, b) <==> b < idx && bits[b]
    {
      if bits[idx] {
        AfterSet(value, idx, 64);
        value := Or(value, Pow2(idx));
      }
    }
    AfterSet(value, 63, 64);
    value := Or(value, Pow2(63));
  }

  /** Bit `i` of a byte, from the bits that start at `base`. */
  method PutBit(value: nat, i: nat, bits: seq<bool>, base: nat) returns (r: nat)
    requires value < Pow2(8) && i < 8 && base + i < |bits|
    requires forall b: nat :: Bit(value, b) <==> b < i && bits[base + b]
    ensures r < Pow2(8) && forall b: nat :: Bit(r, b) <==> b < i + 1 && bits[base + b]
  {
    r := value;
    if bits[base + i] {
      AfterSet(value, i, 8);
      r := Or(value, Pow2(i));
    }
  }

  method Bytes(bits: seq<bool>) returns (bytes: seq<nat>)
    ensures |bytes| == (|bits| + 7) / 8 && Packed(bytes, bits)
  {
    bytes := [];
    var value: nat := 0;
    ghost var j := 0;
    NoBits();
    for idx := 0 to |bits|
      invariant idx == 8 * |bytes| + j && j < 8 && Packed(bytes, bits) && value < Pow2(8)
      invariant forall b: nat :: Bit(value, b) <==> b < j && bits[8 * |bytes| + b]
    {
      assert idx % 8 == j;
      value := PutBit(value, idx % 8, bits, 8 * |bytes|);
      j := j + 1;
      if (idx + 1) % 8 == 0 {
        PackedByte(bytes, bits, value);
        bytes := bytes + [value];
        value, j := 0, 0;
      }
    }
    if |bits| % 8 != 0 {
      PackedByte(bytes, bits, value);
      bytes := bytes + [value];
    }
  }

  lemma AfterSet(v: nat, i: nat, n: nat)
    requires v < Pow2(n) && i < n
    ensures Or(v, Pow2(i)) < Pow2(n) && forall b: nat :: Bit(Or(v, Pow2(i)), b) <==> b == i || Bit(v, b)
  {
    Pow2Monotone(i, n);
    OrWidth(v, Pow2(i), n);
    forall b: nat ensures Bit(Or(v, Pow2(i)), b) <==> b == i || Bit(v, b) {
      OrBit(v, Pow2(i), b);
      Pow2Bit(i, b);
    }
  }

  ghost predicate Packed(bytes: seq<nat>, bits: seq<bool>) {
    && (forall v <- bytes :: v < 256)
    && (forall k, b | 0 <= k < |bytes| && 0 <= b < 8 :: Bit(bytes[k], b) <==> 8 * k + b < |bits| && bits[8 * k + b])
  }

  lemma PackedByte(bytes: seq<nat>, bits: seq<bool>, value: nat)
    requires Packed(bytes, bits) && value < 256
    requires forall b | 0 <= b < 8 :: Bit(value, b) <==> 8 * |bytes| + b < |bits| && bits[8 * |bytes| + b]
    ensures Packed(bytes + [value], bits)
  {
  }

  /** From fields to the encoded bitmap: bit `b` says whether a reference lies at byte `8 * b`, for every
      bit, if and only if dropping arrays without elements moves no field that holds references. */
  method Describe(t: Type) returns (tib: GCTib)
    requires WellFormed(t) && t.Value?
    ensures WordCount(t.valueSize) <= tib.Bits()
    ensures forall b: nat | b < WordCount(t.valueSize) :: tib.Has(b) <==> MarksValue(t, 8 * b)
    ensures (forall b: nat | b < WordCount(t.valueSize) :: tib.Has(b) <==> RefAt(t, 8 * b)) <==> Tight(t)
  {
    var bits := GetGCTib(t);
    tib := CalculateGCTib(bits, false);
    WordsIff(t);
    if !Tight(t) {
      var b: nat :| 8 * b < Size(t) && MarksValue(t, 8 * b) != RefAt(t, 8 * b);
      assert tib.Has(b) <==> MarksValue(t, 8 * b);
    }
  }

  /** Lay out a value type and describe it: the size recomputed from the fields is the stored one, the layout is the
      least, and the bitmap tells exactly where each field's references lie if and only if the layout is tight. */
  method Complete(fs: seq<Type>) returns (stored: Stored, offsets: seq<nat>, size: nat, tib: GCTib)
    requires AllWellFormed(fs)
    ensures size == stored.instanceSize && |offsets| == |fs| && WordCount(size) <= tib.Bits()
    ensures Least(Value(fs, stored.align, size, stored.hasRefField), offsets, size)
    ensures (forall b: nat | b < WordCount(size) :: tib.Has(b) <==> RefInFields(fs, offsets, 8 * b)) <==>
      Tight(Value(fs, stored.align, size, stored.hasRefField))
  {
    var a := new nat[|fs|];
    var t;
    t, stored := FillOffsets(fs, a, false, false);
    offsets := a[..];
    size := GetTypeSize(t);
    tib := Describe(t);
    RefsByOffset(t, offsets);
  }

  /** Some field, at its offset, has a reference at byte `o`. */
  ghost predicate RefInFields(fs: seq<Type>, offsets: seq<nat>, o: nat)
    requires |offsets| == |fs|
  {
    exists i | 0 <= i < |fs| :: !fs[i].Empty? && RefAt(fs[i], o - offsets[i])
  }

  lemma RefsByOffset(t: Type, offsets: seq<nat>)
    requires t.Value? && |offsets| == |t.fields|
    requires forall i | 0 <= i < |t.fields| && !t.fields[i].Empty? :: offsets[i] == Start(t.fields, i)
    ensures forall o: nat :: RefAt(t, o) <==> RefInFields(t.fields, offsets, o)
  {
    forall o: nat ensures RefAt(t, o) <==> RefInFields(t.fields, offsets, o) {
      RefInField(t, o);
      if i :| 0 <= i < |t.fields| && RefField(t.fields, i, o) {
        assert RefAt(t.fields[i], o - offsets[i]);
      }
      if i :| 0 <= i < |t.fields| && !t.fields[i].Empty? && RefAt(t.fields[i], o - offsets[i]) {
        assert RefField(t.fields, i, o);
      }
    }
  }
}
