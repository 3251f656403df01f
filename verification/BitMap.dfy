/** A bitmap in 64-bit words (BitMap in runtime/src/Base/BitMap.h). */
module BitMap {

  import opened Words

  // ---- bits of a word array --------------------------------------------------------------------

  ghost predicate At(ws: seq<nat>, i: nat)
    requires i < 64 * |ws|
  {
    Bit(ws[i / 64], i % 64)
  }

  /** Exactly the bits in `[beg, end)` were given the value `v`. */
  ghost predicate Ranged(was: seq<nat>, now: seq<nat>, beg: nat, end: nat, v: bool) {
    && |now| == |was|
    && forall i: nat | i < 64 * |was| :: At(now, i) <==> if beg <= i < end then v else At(was, i)
  }

  lemma RangedTrans(a: seq<nat>, b: seq<nat>, c: seq<nat>, beg: nat, mid: nat, end: nat, v: bool)
    requires Ranged(a, b, beg, mid, v) && Ranged(b, c, mid, end, v) && beg <= mid <= end
    ensures Ranged(a, c, beg, end, v)
  {
    forall i: nat | i < 64 * |a| ensures At(c, i) <==> if beg <= i < end then v else At(a, i) {
      assert At(b, i) <==> if beg <= i < mid then v else At(a, i);
    }
  }

  ghost predicate AllWords(ws: seq<nat>) {
    forall k | 0 <= k < |ws| :: IsWord(ws[k])
  }

  /** Changing one word changes only its own bits. */
  lemma WordChanged(was: seq<nat>, k: nat, w: nat, beg: nat, end: nat, v: bool)
    requires k < |was| && 64 * k <= beg <= end <= 64 * (k + 1)
    requires forall j: nat | j < 64 :: Bit(w, j) <==> if beg <= 64 * k + j < end then v else Bit(was[k], j)
    ensures Ranged(was, was[k := w], beg, end, v)
  {
    var now := was[k := w];
    forall i: nat | i < 64 * |was| ensures At(now, i) <==> if beg <= i < end then v else At(was, i) {
      if i / 64 == k {
        assert i == 64 * k + i % 64;
      }
    }
  }

  // ---- masks -----------------------------------------------------------------------------------

  /** Selects the bits of a word outside `[beg, end)`, which lies in one word. */
  function InvertedMask(beg: nat, end: nat): nat {
    var low := Pow2(beg % 64) - 1;
    if end % 64 != 0 then Or(low, Not(Pow2(end % 64) - 1, BITS)) else low
  }

  lemma InvertedMaskBit(beg: nat, end: nat, j: nat)
    requires beg < end && beg / 64 == (end - 1) / 64 && j < 64
    ensures Bit(InvertedMask(beg, end), j) <==> !(beg <= 64 * (beg / 64) + j < end)
  {
    MaskBits(beg % 64, end % 64, j);
    InOneWord(beg, end, beg / 64, j);
  }

  /** The bounds of a range within one word, as positions in that word. */
  lemma InOneWord(beg: nat, end: nat, k: nat, j: nat)
    requires beg < end && k == beg / 64 == (end - 1) / 64 && j < 64
    ensures beg <= 64 * k + j < end <==> beg % 64 <= j && (end % 64 == 0 || j < end % 64)
  {
  }

  lemma MaskBits(low: nat, high: nat, j: nat)
    requires j < 64
    ensures Bit(Pow2(low) - 1, j) <==> j < low
    ensures Bit(Or(Pow2(low) - 1, Not(Pow2(high) - 1, BITS)), j) <==> j < low || j >= high
  {
    LowBit(low, j);
    LowBit(high, j);
    NotBit(Pow2(high) - 1, BITS, j);
    OrBit(Pow2(low) - 1, Not(Pow2(high) - 1, BITS), j);
  }

  /** Setting or clearing through the mask changes exactly the range. */
  lemma MaskedWord(w: nat, beg: nat, end: nat)
    requires beg < end && beg / 64 == (end - 1) / 64 && IsWord(w)
    ensures var m := InvertedMask(beg, end);
      && IsWord(Or(w, Not(m, BITS))) && IsWord(And(w, m))
      && (forall j: nat | j < 64 :: Bit(Or(w, Not(m, BITS)), j) <==> beg <= 64 * (beg / 64) + j < end || Bit(w, j))
      && (forall j: nat | j < 64 :: Bit(And(w, m), j) <==> !(beg <= 64 * (beg / 64) + j < end) && Bit(w, j))
  {
    var m := InvertedMask(beg, end);
    NotWord(m);
    OrWord(w, Not(m, BITS));
    AndWord(w, m);
    forall j: nat | j < 64
      ensures Bit(Or(w, Not(m, BITS)), j) <==> beg <= 64 * (beg / 64) + j < end || Bit(w, j)
      ensures Bit(And(w, m), j) <==> !(beg <= 64 * (beg / 64) + j < end) && Bit(w, j)
    {
      InvertedMaskBit(beg, end, j);
      NotBit(m, 64, j);
      OrBit(w, Not(m, BITS), j);
      AndBit(w, m, j);
    }
  }

  function WordsUp(bit: nat): nat {
    (bit + 63) / 64
  }

  function WordsDown(bit: nat): nat {
    bit / 64
  }

  // ---- what the searches find ------------------------------------------------------------------

  /** No bit of `[beg, end)` is set. */
  ghost predicate NoneIn(ws: seq<nat>, beg: nat, end: nat)
    requires end <= 64 * |ws|
  {
    forall i: nat | beg <= i < end :: !At(ws, i)
  }

  /** The set bits of `[beg, end)`, in increasing order. */
  ghost function Members(ws: seq<nat>, beg: nat, end: nat): seq<nat>
    requires end <= 64 * |ws|
    decreases end - beg
  {
    if beg >= end then [] else (if At(ws, beg) then [beg] else []) + Members(ws, beg + 1, end)
  }

  /** `Members` lists exactly the set bits, in strictly increasing order. */
  lemma MembersAre(ws: seq<nat>, beg: nat, end: nat)
    requires end <= 64 * |ws|
    ensures forall i: nat :: i in Members(ws, beg, end) <==> beg <= i < end && At(ws, i)
    ensures Increasing(Members(ws, beg, end))
  {
    forall i: nat ensures i in Members(ws, beg, end) <==> beg <= i < end && At(ws, i) {
      IsMember(ws, beg, end, i);
    }
    MembersIncrease(ws, beg, end);
  }

  lemma {:induction false} IsMember(ws: seq<nat>, beg: nat, end: nat, i: nat)
    requires end <= 64 * |ws|
    ensures i in Members(ws, beg, end) <==> beg <= i < end && At(ws, i)
    decreases end - beg
  {
    if beg < end {
      IsMember(ws, beg + 1, end, i);
    }
  }

  lemma {:induction false} MembersIncrease(ws: seq<nat>, beg: nat, end: nat)
    requires end <= 64 * |ws|
    ensures Increasing(Members(ws, beg, end)) && forall q | 0 <= q < |Members(ws, beg, end)| ::
      Members(ws, beg, end)[q] >= beg
    decreases end - beg
  {
    if beg < end {
      MembersIncrease(ws, beg + 1, end);
      IncreasingCons(At(ws, beg), beg, Members(ws, beg + 1, end));
    }
  }

  ghost predicate Increasing(xs: seq<nat>) {
    forall p, q | 0 <= p < q < |xs| :: xs[p] < xs[q]
  }

  lemma IncreasingCons(put: bool, x: nat, xs: seq<nat>)
    requires Increasing(xs) && forall q | 0 <= q < |xs| :: x < xs[q]
    ensures var ys := (if put then [x] else []) + xs; Increasing(ys) && forall q | 0 <= q < |ys| :: ys[q] >= x
  {
  }

  lemma MembersSkip(ws: seq<nat>, beg: nat, mid: nat, end: nat)
    requires beg <= mid <= end <= 64 * |ws| && NoneIn(ws, beg, mid)
    ensures Members(ws, beg, end) == Members(ws, mid, end)
    decreases mid - beg
  {
    if beg < mid {
      MembersSkip(ws, beg + 1, mid, end);
    }
  }

  /** The set bits of `[beg, end)`, in decreasing order. */
  ghost function Downwards(ws: seq<nat>, beg: nat, end: nat): seq<nat>
    requires end <= 64 * |ws|
    decreases end
  {
    if beg >= end then [] else (if At(ws, end - 1) then [end - 1] else []) + Downwards(ws, beg, end - 1)
  }

  lemma DownwardsAre(ws: seq<nat>, beg: nat, end: nat)
    requires end <= 64 * |ws|
    ensures forall i: nat :: i in Downwards(ws, beg, end) <==> beg <= i < end && At(ws, i)
    ensures Decreasing(Downwards(ws, beg, end))
  {
    forall i: nat ensures i in Downwards(ws, beg, end) <==> beg <= i < end && At(ws, i) {
      IsBelow(ws, beg, end, i);
    }
    DownwardsDecrease(ws, beg, end);
  }

  /** One step of the membership proof, with the bits of `x` and `i` as plain truth values. */
  lemma BelowStep(put: bool, x: nat, rest: seq<nat>, beg: nat, i: nat, on: bool)
    requires beg <= x && (i == x ==> on == put) && (i in rest <==> beg <= i < x && on)
    ensures i in (if put then [x] else []) + rest <==> beg <= i < x + 1 && on
  {
  }

  lemma {:induction false} IsBelow(ws: seq<nat>, beg: nat, end: nat, i: nat)
    requires end <= 64 * |ws|
    ensures i in Downwards(ws, beg, end) <==> beg <= i < end && At(ws, i)
    decreases end
  {
    if beg < end {
      IsBelow(ws, beg, end - 1, i);
      BelowStep(At(ws, end - 1), end - 1, Downwards(ws, beg, end - 1), beg, i, i < 64 * |ws| && At(ws, i));
    }
  }

  lemma {:induction false} DownwardsDecrease(ws: seq<nat>, beg: nat, end: nat)
    requires end <= 64 * |ws|
    ensures Decreasing(Downwards(ws, beg, end)) && forall q | 0 <= q < |Downwards(ws, beg, end)| ::
      Downwards(ws, beg, end)[q] < end
    decreases end
  {
    if beg < end {
      DownwardsDecrease(ws, beg, end - 1);
      DecreasingCons(At(ws, end - 1), end - 1, Downwards(ws, beg, end - 1));
    }
  }

  ghost predicate Decreasing(xs: seq<nat>) {
    forall p, q | 0 <= p < q < |xs| :: xs[p] > xs[q]
  }

  lemma DecreasingCons(put: bool, x: nat, xs: seq<nat>)
    requires Decreasing(xs) && forall q | 0 <= q < |xs| :: xs[q] < x
    ensures var ys := (if put then [x] else []) + xs; Decreasing(ys) && forall q | 0 <= q < |ys| :: ys[q] < x + 1
  {
  }

  lemma DownwardsSkip(ws: seq<nat>, beg: nat, mid: nat, end: nat)
    requires beg <= mid <= end <= 64 * |ws| && NoneIn(ws, mid, end)
    ensures Downwards(ws, beg, end) == Downwards(ws, beg, mid)
    decreases end
  {
    if mid < end {
      DownwardsSkip(ws, beg, mid, end - 1);
    }
  }

  // ---- words and ranges ------------------------------------------------------------------------

  lemma ZeroWord(ws: seq<nat>, k: nat)
    requires k < |ws| && ws[k] == 0
    ensures NoneIn(ws, 64 * k, 64 * (k + 1))
  {
    NoBits();
  }

  lemma AtWord(ws: seq<nat>, k: nat, j: nat)
    requires k < |ws| && j < 64
    ensures At(ws, 64 * k + j) <==> Bit(ws[k], j)
  {
  }

  /** Whatever holds of the bits `[lo, hi)` of a word holds of that stretch of the bitmap. */
  lemma NoneInWord(ws: seq<nat>, k: nat, lo: nat, hi: nat)
    requires k < |ws| && hi <= 64 && forall j: nat | lo <= j < hi :: !Bit(ws[k], j)
    ensures NoneIn(ws, 64 * k + lo, 64 * k + hi)
  {
    forall i: nat | 64 * k + lo <= i < 64 * k + hi ensures !At(ws, i) {
      AtWord(ws, k, i - 64 * k);
    }
  }

  /** The first set bit of a word, found from bit `j` on. */
  lemma FirstOfWord(ws: seq<nat>, k: nat, j: nat)
    requires k < |ws| && j < 64 && AllWords(ws)
    ensures var c := Shr(ws[k], j);
      && (c == 0 ==> NoneIn(ws, 64 * k + j, 64 * (k + 1)))
      && (c != 0 ==> j + Ctz(c) < 64 && At(ws, 64 * k + j + Ctz(c)) && NoneIn(ws, 64 * k + j, 64 * k + j + Ctz(c)))
  {
    var c := Shr(ws[k], j);
    var n := if c == 0 then 64 - j else Ctz(c);
    if c != 0 {
      ShrBit(ws[k], j, n);
      if j + n >= 64 {
        WordBit(ws[k], j + n);
      }
      AtWord(ws, k, j + n);
    }
    forall b: nat | j <= b < j + n ensures !Bit(ws[k], b) {
      ShrBit(ws[k], j, b - j);
      ZeroBit(b - j);
    }
    NoneInWord(ws, k, j, j + n);
  }

  /** The last set bit of a word below bit `j`. */
  lemma LastOfWord(ws: seq<nat>, k: nat, j: nat)
    requires k < |ws| && j < 64
    ensures var c := And(ws[k], Pow2(j) - 1);
      && (c == 0 ==> NoneIn(ws, 64 * k, 64 * k + j))
      && (c != 0 ==> Top(c) < j && At(ws, 64 * k + Top(c)) && NoneIn(ws, 64 * k + Top(c) + 1, 64 * k + j))
  {
    var c := And(ws[k], Pow2(j) - 1);
    var lo := if c == 0 then 0 else Top(c) + 1;
    if c != 0 {
      AndBit(ws[k], Pow2(j) - 1, Top(c));
      LowBit(j, Top(c));
      AtWord(ws, k, Top(c));
    }
    forall b: nat | lo <= b < j ensures !Bit(ws[k], b) {
      AndBit(ws[k], Pow2(j) - 1, b);
      LowBit(j, b);
      ZeroBit(b);
    }
    NoneInWord(ws, k, lo, j);
  }

  lemma LastOfWhole(ws: seq<nat>, k: nat)
    requires k < |ws| && AllWords(ws) && ws[k] != 0
    ensures Top(ws[k]) < 64 && At(ws, 64 * k + Top(ws[k])) && NoneIn(ws, 64 * k + Top(ws[k]) + 1, 64 * (k + 1))
  {
    var n := Top(ws[k]);
    if n >= 64 {
      WordBit(ws[k], n);
    }
    AtWord(ws, k, n);
    NoneInWord(ws, k, n + 1, 64);
  }

  lemma MaskTest(w: nat, j: nat)
    ensures And(w, Pow2(j)) != 0 <==> Bit(w, j)
  {
    var c := And(w, Pow2(j));
    AndBit(w, Pow2(j), j);
    Pow2Bit(j, j);
    ZeroBit(j);
    if c != 0 {
      AndBit(w, Pow2(j), Top(c));
      Pow2Bit(j, Top(c));
    }
  }

  // ---- the bitmap ------------------------------------------------------------------------------

  /** The unsigned difference wraps when the range has no full word between its ends. */
  method IsSmallRange(begFull: nat, endFull: nat) returns (small: bool)
    requires begFull <= endFull + 1 && endFull < Pow2(BITS)
    ensures small ==> begFull <= endFull
  {
    Pow2Monotone(6, BITS);
    var count := if endFull >= begFull then endFull - begFull else endFull + Pow2(BITS) - begFull;
    return count < 32;
  }

  /** When a range reaches the boundary of a word, told from the range. */
  lemma ReachesBoundary(beg: nat, end: nat)
    requires beg <= end
    ensures WordsUp(beg) <= WordsDown(end) <==> beg % 64 == 0 || beg / 64 < end / 64
  {
  }

  /** Clearing [1, 2) as a large range reaches bit 5, and so does clearing the empty range [3, 3). */
  lemma LargeRangeSpills(was: seq<nat>, now: seq<nat>, beg: nat, end: nat)
    requires (beg == 1 && end == 2) || (beg == 3 && end == 3)
    requires |was| > 0 && At(was, 5) && Ranged(was, now, beg, 64 * WordsUp(beg), false)
    ensures !(beg % 64 == 0 || beg / 64 < end / 64) && !At(now, 5) && !Ranged(was, now, beg, end, false)
  {
    assert WordsUp(beg) == 1;
    assert 5 < 64 * |was|;
  }

  class Map {
    const size: nat
    const words: array<nat>

    ghost predicate Valid()
      reads words
    {
      words.Length == WordsUp(size) && AllWords(words[..])
    }

    constructor (size: nat)
      ensures Valid() && this.size == size && fresh(words) && NoneIn(words[..], 0, 64 * words.Length)
    {
      this.size := size;
      words := new nat[WordsUp(size)](_ => 0);
      new;
      NoBits();
      LowWord(0);
    }

    method SetRangeWithinWord(beg: nat, end: nat)
      requires Valid() && beg <= end <= 64 * words.Length && (beg == end || beg / 64 == (end - 1) / 64)
      modifies words
      ensures Valid() && Ranged(old(words[..]), words[..], beg, end, true)
    {
      if beg != end {
        var k := beg / 64;
        MaskedWord(words[k], beg, end);
        words[k] := Or(words[k], Not(InvertedMask(beg, end), BITS));
        WordChanged(old(words[..]), k, words[k], beg, end, true);
        assert words[..] == old(words[..])[k := words[k]];
      }
    }

    method ClearRangeWithinWord(beg: nat, end: nat)
      requires Valid() && beg <= end <= 64 * words.Length && (beg == end || beg / 64 == (end - 1) / 64)
      modifies words
      ensures Valid() && Ranged(old(words[..]), words[..], beg, end, false)
    {
      if beg != end {
        var k := beg / 64;
        MaskedWord(words[k], beg, end);
        words[k] := And(words[k], InvertedMask(beg, end));
        WordChanged(old(words[..]), k, words[k], beg, end, false);
        assert words[..] == old(words[..])[k := words[k]];
      }
    }

    method FillWords(beg: nat, end: nat, v: bool)
      requires Valid() && beg <= end <= words.Length
      modifies words
      ensures Valid() && Ranged(old(words[..]), words[..], 64 * beg, 64 * end, v)
    {
      for i := beg to end
        invariant Valid() && Ranged(old(words[..]), words[..], 64 * beg, 64 * i, v)
      {
        ghost var was := words[..];
        words[i] := if v then Pow2(BITS) - 1 else 0;
        FullWord(was, i, words[i], v);
        assert words[..] == was[i := words[i]];
        RangedTrans(old(words[..]), was, words[..], 64 * beg, 64 * i, 64 * (i + 1), v);
      }
    }

    /** Set exactly the bits of `[beg, end)`. */
    method SetRange(beg: nat, end: nat)
      requires Valid() && beg <= end <= size
      modifies words
      ensures Valid() && Ranged(old(words[..]), words[..], beg, end, true)
    {
      var begFull, endFull := WordsUp(beg), WordsDown(end);
      if begFull < endFull {
        SetRangeWithinWord(beg, 64 * begFull);
        ghost var a := words[..];
        FillWords(begFull, endFull, true);
        RangedTrans(old(words[..]), a, words[..], beg, 64 * begFull, 64 * endFull, true);
        ghost var b := words[..];
        SetRangeWithinWord(64 * endFull, end);
        RangedTrans(old(words[..]), b, words[..], beg, 64 * endFull, end, true);
      } else {
        var boundary := if 64 * begFull < end then 64 * begFull else end;
        SetRangeWithinWord(beg, boundary);
        ghost var a := words[..];
        SetRangeWithinWord(boundary, end);
        RangedTrans(old(words[..]), a, words[..], beg, boundary, end, true);
      }
    }

    /** Clear exactly the bits of `[beg, end)`. */
    method ClearRange(beg: nat, end: nat)
      requires Valid() && beg <= end <= size
      modifies words
      ensures Valid() && Ranged(old(words[..]), words[..], beg, end, false)
    {
      var begFull, endFull := WordsUp(beg), WordsDown(end);
      if begFull < endFull {
        ClearThreeParts(beg, begFull, endFull, end);
      } else {
        var boundary := if 64 * begFull < end then 64 * begFull else end;
        ClearRangeWithinWord(beg, boundary);
        ghost var a := words[..];
        ClearRangeWithinWord(boundary, end);
        RangedTrans(old(words[..]), a, words[..], beg, boundary, end, false);
      }
    }

    method ClearThreeParts(beg: nat, begFull: nat, endFull: nat, end: nat)
      requires Valid() && beg <= end <= size && begFull == WordsUp(beg) <= WordsDown(end) == endFull
      modifies words
      ensures Valid() && Ranged(old(words[..]), words[..], beg, end, false)
    {
      ClearRangeWithinWord(beg, 64 * begFull);
      ghost var a := words[..];
      FillWords(begFull, endFull, false);
      RangedTrans(old(words[..]), a, words[..], beg, 64 * begFull, 64 * endFull, false);
      ghost var b := words[..];
      ClearRangeWithinWord(64 * endFull, end);
      RangedTrans(old(words[..]), b, words[..], beg, 64 * endFull, end, false);
    }

    /** The word count is an unsigned difference: when the range begins inside a word and ends before the
        next one it wraps, the bits up to the end of that word are cleared and the range check aborts. In
        every other case this is `ClearRange`. */
    method ClearLargeRange(beg: nat, end: nat) returns (completed: bool)
      requires Valid() && beg <= end <= size < Pow2(BITS)
      modifies words
      ensures Valid() && (completed <==> beg % 64 == 0 || beg / 64 < end / 64)
      ensures Ranged(old(words[..]), words[..], beg, if completed then end else 64 * WordsUp(beg), false)
    {
      var begFull, endFull := WordsUp(beg), WordsDown(end);
      ReachesBoundary(beg, end);
      var small := IsSmallRange(begFull, endFull);
      if small {
        ClearRange(beg, end);
        return true;
      }
      if begFull > endFull {
        ClearRangeWithinWord(beg, 64 * begFull);
        return false;
      }
      ClearThreeParts(beg, begFull, endFull, end);
      return true;
    }

    /** The first set bit of `[beg, end)`, or `end`. */
    method FindFirst(beg: nat, end: nat) returns (r: nat)
      requires Valid() && beg <= end <= size
      ensures beg <= r <= end && NoneIn(words[..], beg, r) && (r < end ==> At(words[..], r))
    {
      if beg >= end {
        return end;
      }
      ghost var ws := words[..];
      var k := beg / 64;
      var cword := Shr(words[k], beg % 64);
      FirstOfWord(ws, k, beg % 64);
      if cword % 2 == 1 {
        return beg;
      }
      var pos := beg;
      if cword == 0 {
        var limit := WordsUp(end);
        k := k + 1;
        while k < limit
          invariant beg / 64 < k <= words.Length && cword == 0 && NoneIn(ws, beg, 64 * k)
        {
          cword := words[k];
          if cword != 0 {
            pos := 64 * k;
            FirstOfWord(ws, k, 0);
            break;
          }
          ZeroWord(ws, k);
          k := k + 1;
        }
      }
      if cword != 0 {
        r := pos + Ctz(cword);
        if r < end {
          return r;
        }
      }
      return end;
    }

    /** Walk back from word `k` to a word with a set bit, no further than word `limit`. */
    method PreviousWord(k: nat, limit: nat) returns (r: nat, cword: nat)
      requires Valid() && limit <= k < words.Length
      ensures limit <= r <= k && (cword != 0 ==> r < k && cword == words[r])
      ensures cword == 0 ==> NoneIn(words[..], 64 * limit, 64 * k)
      ensures cword != 0 ==> Top(cword) < 64 && At(words[..], 64 * r + Top(cword)) && NoneIn(words[..],
        64 * r + Top(cword) + 1, 64 * k)
    {
      ghost var ws := words[..];
      r, cword := k, 0;
      while r > limit
        invariant limit <= r <= k && cword == 0 && NoneIn(ws, 64 * r, 64 * k)
      {
        r := r - 1;
        cword := words[r];
        if cword != 0 {
          LastOfWhole(ws, r);
          return;
        }
        ZeroWord(ws, r);
      }
    }

    /** The last set bit of `[beg, end)`, or `end`. */
    method FindLast(beg: nat, end: nat) returns (r: nat)
      requires Valid() && beg <= end <= size
      ensures r < end ==> beg <= r && At(words[..], r) && NoneIn(words[..], r + 1, end)
      ensures r >= end ==> r == end && NoneIn(words[..], beg, end)
    {
      if beg >= end {
        return end;
      }
      ghost var ws := words[..];
      var last := end - 1;
      var k := last / 64;
      var cword := words[k];
      MaskTest(cword, last % 64);
      if And(cword, Pow2(last % 64)) != 0 {
        return last;
      }
      cword := And(cword, Pow2(last % 64) - 1);
      LastOfWord(ws, k, last % 64);
      if cword == 0 {
        k, cword := PreviousWord(k, beg / 64);
      }
      if cword != 0 {
        r := 64 * k + Top(cword);
        if r >= beg {
          return r;
        }
      }
      return end;
    }
  }

  lemma FullWord(was: seq<nat>, k: nat, w: nat, v: bool)
    requires k < |was| && w == if v then Pow2(BITS) - 1 else 0
    ensures Ranged(was, was[k := w], 64 * k, 64 * (k + 1), v) && IsWord(w)
  {
    LowWord(BITS);
    forall j: nat | j < 64 ensures Bit(w, j) <==> v {
      LowBit(BITS, j);
      ZeroBit(j);
    }
    WordChanged(was, k, w, 64 * k, 64 * (k + 1), v);
  }

  // ---- iteration -------------------------------------------------------------------------------

  /** Call `f` on the set bits of `[beg, end)` in increasing order until it says stop. */
  method Iterate(bits: Map, f: nat -> bool, beg: nat, end: nat) returns (visited: seq<nat>, all: bool)
    requires bits.Valid() && beg <= end <= bits.size
    ensures all ==> visited == Members(bits.words[..], beg, end) && forall i <- visited :: f(i)
    ensures !all ==> visited != [] && visited <= Members(bits.words[..], beg, end) && !f(visited[|visited| - 1])
    ensures !all ==> forall p | 0 <= p < |visited| - 1 :: f(visited[p])
  {
    ghost var ws := bits.words[..];
    visited := [];
    var index := beg;
    while true
      invariant beg <= index <= end && Members(ws, beg, end) == visited + Members(ws, index, end)
      invariant forall i <- visited :: f(i)
      decreases end - index
    {
      var next := bits.FindFirst(index, end);
      MembersSkip(ws, index, next, end);
      if next >= end {
        assert visited + [] == visited;
        return visited, true;
      }
      assert Members(ws, next, end) == [next] + Members(ws, next + 1, end);
      Associate(visited, next, Members(ws, next + 1, end));
      visited := visited + [next];
      if !f(next) {
        return visited, false;
      }
      index := next + 1;
    }
  }

  lemma Associate(xs: seq<nat>, x: nat, ys: seq<nat>)
    ensures xs + ([x] + ys) == (xs + [x]) + ys
  {
  }

  /** The set bits of a range in decreasing order, one step at a time. */
  class ReverseIterator {
    const bits: Map
    const curBeg: nat
    var curEnd: nat

    ghost predicate Valid()
      reads this, bits.words
    {
      && bits.Valid() && curBeg <= curEnd <= bits.size
      && (curBeg < curEnd ==> At(bits.words[..], curEnd - 1))
    }

    /** What is still to come. */
    ghost function Remaining(): seq<nat>
      requires Valid()
      reads this, bits.words
    {
      Downwards(bits.words[..], curBeg, curEnd)
    }

    constructor (bits: Map, beg: nat, end: nat)
      requires bits.Valid() && beg <= end <= bits.size
      ensures this.bits == bits && curBeg == beg && Valid() && Remaining() == Downwards(bits.words[..], beg, end)
    {
      this.bits := bits;
      curBeg := beg;
      var pos := bits.FindLast(beg, end);
      curEnd := if pos < end then pos + 1 else beg;
      DownwardsSkip(bits.words[..], beg, if pos < end then pos + 1 else beg, end);
    }

    method IsEmpty() returns (empty: bool)
      requires Valid()
      ensures empty <==> Remaining() == []
    {
      return curBeg == curEnd;
    }

    method Index() returns (i: nat)
      requires Valid() && Remaining() != []
      ensures i == Remaining()[0]
    {
      return curEnd - 1;
    }

    method Step()
      requires Valid() && Remaining() != []
      modifies this
      ensures Valid() && Remaining() == old(Remaining())[1..]
    {
      var last := curEnd - 1;
      var pos := bits.FindLast(curBeg, last);
      DownwardsSkip(bits.words[..], curBeg, if pos < last then pos + 1 else curBeg, last);
      curEnd := if pos < last then pos + 1 else curBeg;
    }
  }
}
