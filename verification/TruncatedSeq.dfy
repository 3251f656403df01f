/** A sliding window with running sums and a linear prediction (TruncatedSeq in
    runtime/src/Base/TruncatedSeq.h), over the reals. */
module TruncatedSeq {

  import opened Sealing

  const MAX_LENGTH: nat := 100

  // ---- products --------------------------------------------------------------------------------

  ghost predicate IsProduct(a: real, b: real, r: real) {
    forall k: nat :: Opens(k) ==> r == a * b
  }

  /** The product, sealed: sums are kept free of multiplications. The value is chosen as the one number that
      satisfies a sealed predicate, so the solver meets no multiplication until `ProdIs` opens it. */
  ghost function Prod(a: real, b: real): real {
    assert IsProduct(a, b, a * b);
    var r: real :| IsProduct(a, b, r);
    r
  }

  lemma ProdIs(a: real, b: real)
    ensures Prod(a, b) == a * b
  {
    assert IsProduct(a, b, a * b);
    assert Opens(0);
  }

  // ---- sums ------------------------------------------------------------------------------------

  function Sum(w: seq<real>): real {
    if w == [] then 0.0 else Sum(w[..|w| - 1]) + w[|w| - 1]
  }

  ghost function SumSq(w: seq<real>): real {
    if w == [] then 0.0 else SumSq(w[..|w| - 1]) + Prod(w[|w| - 1], w[|w| - 1])
  }

  /** The sum of `x * y` over the points, `x` being the index. */
  ghost function SumXY(w: seq<real>): real {
    if w == [] then 0.0 else SumXY(w[..|w| - 1]) + Prod((|w| - 1) as real, w[|w| - 1])
  }

  function SumX(n: nat): real {
    if n == 0 then 0.0 else SumX(n - 1) + (n - 1) as real
  }

  ghost function SumXX(n: nat): real {
    if n == 0 then 0.0 else SumXX(n - 1) + Prod((n - 1) as real, (n - 1) as real)
  }

  lemma SumAppend(w: seq<real>, v: real)
    ensures Sum(w + [v]) == Sum(w) + v && SumSq(w + [v]) == SumSq(w) + Prod(v, v)
  {
    assert (w + [v])[..|w|] == w;
  }

  lemma SumPrepend(v: real, w: seq<real>)
    ensures Sum([v] + w) == v + Sum(w) && SumSq([v] + w) == Prod(v, v) + SumSq(w)
  {
    if w == [] {
      assert [v] + w == [v] && [v][..0] == [];
    } else {
      SumPrepend(v, w[..|w| - 1]);
      assert ([v] + w)[..|w|] == [v] + w[..|w| - 1];
    }
  }

  // ---- the window ------------------------------------------------------------------------------

  /** The last `n` values, or all if there are fewer. */
  function LastOf(h: seq<real>, n: nat): seq<real> {
    if |h| <= n then h else h[|h| - n..]
  }

  /** The ring read from its oldest entry on. */
  function Ring(s: seq<real>, next: nat, num: nat): seq<real>
    requires next < |s| && num <= |s|
  {
    if num < |s| then s[..num] else s[next..] + s[..next]
  }

  ghost predicate RingBody(s: seq<real>, next: nat, num: nat, h: seq<real>)
    requires next < |s| && num <= |s|
  {
    && Ring(s, next, num) == LastOf(h, |s|)
    && (num < |s| ==> next == num && forall i | num <= i < |s| :: s[i] == 0.0)
  }

  ghost predicate Decides(b: bool, s: seq<real>, next: nat, num: nat, h: seq<real>)
    requires next < |s| && num <= |s|
  {
    forall k: nat :: Opens(k) ==> b == RingBody(s, next, num, h)
  }

  /** What holds of a ring buffer of the given length after the values `h`. Sealed by choosing the truth
      value: a sealed quantifier would be opened again wherever the predicate has to be proved. */
  ghost predicate RingOk(s: seq<real>, next: nat, num: nat, h: seq<real>) {
    && next < |s| && num <= |s| && num == |LastOf(h, |s|)|
    && (assert Decides(RingBody(s, next, num, h), s, next, num, h); var b: bool :| Decides(b, s, next, num, h); b)
  }

  lemma OpenRing(s: seq<real>, next: nat, num: nat, h: seq<real>)
    requires next < |s| && num <= |s| && num == |LastOf(h, |s|)|
    ensures RingOk(s, next, num, h) <==> RingBody(s, next, num, h)
  {
    assert Decides(RingBody(s, next, num, h), s, next, num, h);
    assert Opens(0);
  }

  function Next(next: nat, length: nat): nat
    requires length > 0
  {
    (next + 1) % length
  }

  lemma NextIs(next: nat, length: nat)
    requires next < length
    ensures Next(next, length) == if next + 1 == length then 0 else next + 1
  {
  }

  lemma LastOfAdd(h: seq<real>, v: real, n: nat)
    requires n > 0
    ensures |h| < n ==> LastOf(h + [v], n) == LastOf(h, n) + [v]
    ensures |h| >= n ==> LastOf(h, n) != [] && LastOf(h + [v], n) == LastOf(h, n)[1..] + [v]
  {
  }

  lemma RingGrows(s: seq<real>, num: nat, after: nat, v: real)
    requires num < |s| && after == (if num + 1 == |s| then 0 else num + 1)
    ensures Ring(s[num := v], after, num + 1) == s[..num] + [v]
  {
  }

  lemma RingTurns(s: seq<real>, next: nat, after: nat, v: real)
    requires next < |s| && after == (if next + 1 == |s| then 0 else next + 1)
    ensures Ring(s, next, |s|)[0] == s[next]
    ensures Ring(s[next := v], after, |s|) == Ring(s, next, |s|)[1..] + [v]
  {
  }

  /** Overwriting the oldest entry moves the window by one. */
  lemma RingAdd(s: seq<real>, next: nat, num: nat, h: seq<real>, v: real)
    requires RingOk(s, next, num, h)
    ensures RingOk(s[next := v], Next(next, |s|), if num < |s| then num + 1 else num, h + [v])
  {
    OpenRing(s, next, num, h);
    NextIs(next, |s|);
    LastOfAdd(h, v, |s|);
    if num < |s| {
      RingGrows(s, num, Next(next, |s|), v);
    } else {
      RingTurns(s, next, Next(next, |s|), v);
    }
    OpenRing(s[next := v], Next(next, |s|), if num < |s| then num + 1 else num, h + [v]);
  }

  lemma SumsMove(w: seq<real>, x: real, rest: seq<real>, v: real)
    requires w == [x] + rest
    ensures Sum(rest + [v]) == Sum(w) - x + v && SumSq(rest + [v]) == SumSq(w) - Prod(x, x) + Prod(v, v)
  {
    SumPrepend(x, rest);
    SumAppend(rest, v);
  }

  lemma GrowSums(w: seq<real>, x: real, v: real)
    requires x == 0.0
    ensures Sum(w + [v]) == Sum(w) - x + v && SumSq(w + [v]) == SumSq(w) - Prod(x, x) + Prod(v, v)
  {
    SumAppend(w, v);
    ProdIs(x, x);
  }

  lemma OldestIs(s: seq<real>, next: nat, num: nat, h: seq<real>)
    requires RingOk(s, next, num, h)
    ensures if num < |s| then s[next] == 0.0 && |h| < |s| else |h| >= |s| && LastOf(h, |s|) == [s[next]] + LastOf(h,
      |s|)[1..]
  {
    OpenRing(s, next, num, h);
  }

  /** What the window loses is the entry overwritten, or nothing while it grows. */
  lemma RingSums(s: seq<real>, next: nat, num: nat, h: seq<real>, v: real)
    requires RingOk(s, next, num, h)
    ensures Sum(LastOf(h + [v], |s|)) == Sum(LastOf(h, |s|)) - s[next] + v
    ensures SumSq(LastOf(h + [v], |s|)) == SumSq(LastOf(h, |s|)) - Prod(s[next], s[next]) + Prod(v, v)
  {
    OldestIs(s, next, num, h);
    WindowSums(h, |s|, s[next], v);
  }

  lemma WindowSums(h: seq<real>, n: nat, x: real, v: real)
    requires n > 0
    requires if |h| < n then x == 0.0 else LastOf(h, n) == [x] + LastOf(h, n)[1..]
    ensures Sum(LastOf(h + [v], n)) == Sum(LastOf(h, n)) - x + v
    ensures SumSq(LastOf(h + [v], n)) == SumSq(LastOf(h, n)) - Prod(x, x) + Prod(v, v)
  {
    LastOfAdd(h, v, n);
    if |h| < n {
      GrowSums(LastOf(h, n), x, v);
    } else {
      SumsMove(LastOf(h, n), x, LastOf(h, n)[1..], v);
    }
  }

  /** The fields of a window: its ring and its running sums. */
  datatype Fields = Fields(s: seq<real>, next: nat, num: nat, sum: real, sumOfSquares: real)

  /** The ring holds the last values of `h`, and the running sums are theirs. */
  ghost predicate Holds(f: Fields, h: seq<real>) {
    && RingOk(f.s, f.next, f.num, h)
    && f.sum == Sum(LastOf(h, |f.s|)) && f.sumOfSquares == SumSq(LastOf(h, |f.s|))
  }

  /** One addition, on the fields. */
  ghost function Move(f: Fields, v: real): Fields
    requires f.next < |f.s|
  {
    var x := f.s[f.next];
    Fields(f.s[f.next := v], Next(f.next, |f.s|), if f.num < |f.s| then f.num + 1 else f.num,
           f.sum - x + v, f.sumOfSquares - Prod(x, x) + Prod(v, v))
  }

  lemma Moved(f: Fields, h: seq<real>, v: real)
    requires Holds(f, h)
    ensures Holds(Move(f, v), h + [v])
  {
    RingAdd(f.s, f.next, f.num, h, v);
    RingSums(f.s, f.next, f.num, h, v);
  }

  // ---- the decaying average --------------------------------------------------------------------

  function Decayed(h: seq<real>): real {
    if h == [] then 0.0
    else if |h| == 1 then h[0]
    else Decayed(h[..|h| - 1]) + 0.3 * (h[|h| - 1] - Decayed(h[..|h| - 1]))
  }

  lemma DecayedAdd(h: seq<real>, v: real)
    ensures Decayed(h + [v]) == if h == [] then v else Decayed(h) + 0.3 * (v - Decayed(h))
  {
    assert (h + [v])[..|h|] == h;
  }

  /** The average never leaves the range of the values added. */
  lemma {:induction false} DecayedWithin(h: seq<real>, lo: real, hi: real)
    requires h != [] && forall i | 0 <= i < |h| :: lo <= h[i] <= hi
    ensures lo <= Decayed(h) <= hi
  {
    if |h| > 1 {
      DecayedWithin(h[..|h| - 1], lo, hi);
    }
  }

  /** 0.7 to the power `k`. */
  function Fade(k: nat): real {
    if k == 0 then 1.0 else 0.7 * Fade(k - 1)
  }

  /** What value `i` of `n` counts for: the last 0.3, each earlier one 0.7 of the next, the first all that is left. */
  function Weight(i: nat, n: nat): real
    requires i < n
  {
    if i == 0 then Fade(n - 1) else 0.3 * Fade(n - 1 - i)
  }

  /** The first `k` of `n` values, each with its weight. */
  ghost function Weighted(h: seq<real>, k: nat, n: nat): real
    requires k <= n && k <= |h|
  {
    if k == 0 then 0.0 else Weighted(h, k - 1, n) + Prod(Weight(k - 1, n), h[k - 1])
  }

  function Weights(k: nat, n: nat): real
    requires k <= n
  {
    if k == 0 then 0.0 else Weights(k - 1, n) + Weight(k - 1, n)
  }

  lemma {:induction false} Faded(h: seq<real>, k: nat, n: nat)
    requires k < n && k <= |h|
    ensures k <= n - 1 && Weighted(h, k, n) == 0.7 * Weighted(h, k, n - 1) && Weights(k, n) == 0.7 * Weights(k, n - 1)
  {
    if k > 0 {
      Faded(h, k - 1, n);
      assert Weight(k - 1, n) == 0.7 * Weight(k - 1, n - 1);
      ScaledProd(Weight(k - 1, n - 1), h[k - 1]);
    }
  }

  lemma ScaledProd(w: real, x: real)
    ensures Prod(0.7 * w, x) == 0.7 * Prod(w, x)
  {
    ProdIs(0.7 * w, x);
    ProdIs(w, x);
    assert (0.7 * w) * x == 0.7 * (w * x);
  }

  lemma {:induction false} WeightedPrefix(h: seq<real>, k: nat, n: nat, m: nat)
    requires k <= n && k <= m <= |h|
    ensures Weighted(h[..m], k, n) == Weighted(h, k, n)
  {
    if k > 0 {
      WeightedPrefix(h, k - 1, n, m);
    }
  }

  /** The average is the values with their weights, and the weights make up 1. */
  lemma {:induction false} DecayedIsWeighted(h: seq<real>)
    requires h != []
    ensures Decayed(h) == Weighted(h, |h|, |h|) && Weights(|h|, |h|) == 1.0
  {
    var n := |h|;
    ProdIs(Weight(n - 1, n), h[n - 1]);
    if n == 1 {
      assert Weighted(h, 0, 1) == 0.0 && Weights(0, 1) == 0.0;
    } else {
      DecayedIsWeighted(h[..n - 1]);
      WeightedPrefix(h, n - 1, n - 1, n - 1);
      Faded(h, n - 1, n);
      assert Fade(0) == 1.0;
    }
  }

  // ---- variance --------------------------------------------------------------------------------

  /** The sum of squared distances from `c`. */
  ghost function Spread(w: seq<real>, c: real): real {
    if w == [] then 0.0 else Spread(w[..|w| - 1], c) + Prod(w[|w| - 1] - c, w[|w| - 1] - c)
  }

  lemma SquareSign(x: real)
    ensures Prod(x, x) >= 0.0
    ensures x != 0.0 ==> Prod(x, x) > 0.0
  {
    ProdIs(x, x);
    SignRule(x, x, Prod(x, x));
  }

  lemma SignRule(x: real, y: real, p: real)
    requires p == x * y
    ensures (x > 0.0 && y > 0.0) || (x < 0.0 && y < 0.0) ==> p > 0.0
    ensures x == 0.0 ==> p == 0.0
  {
    if x > 0.0 && y > 0.0 {
      PositiveProduct(x, y);
    } else if x < 0.0 && y < 0.0 {
      PositiveProduct(0.0 - x, 0.0 - y);
      TwoSigns(x, y);
    }
  }

  lemma PositiveProduct(x: real, y: real)
    requires x > 0.0 && y > 0.0
    ensures x * y > 0.0
  {
  }

  lemma TwoSigns(x: real, y: real)
    ensures (0.0 - x) * (0.0 - y) == x * y
  {
  }

  lemma SpreadIs(w: seq<real>, c: real)
    ensures Spread(w, c) == SumSq(w) - 2.0 * Prod(c, Sum(w)) + Prod(|w| as real, Prod(c, c))
  {
    if w == [] {
      ProdIs(c, 0.0);
      ProdIs(0.0, Prod(c, c));
    } else {
      var v := w[..|w| - 1];
      SpreadIs(v, c);
      SpreadStep(Sum(v), |v| as real, w[|w| - 1], c);
    }
  }

  lemma SpreadStep(s: real, n: real, x: real, c: real)
    ensures 0.0 - 2.0 * Prod(c, s) + Prod(n, Prod(c, c)) + Prod(x - c, x - c) ==
      Prod(x, x) - 2.0 * Prod(c, s + x) + Prod(n + 1.0, Prod(c, c))
  {
    ProdIs(c, s);
    ProdIs(c, c);
    ProdIs(n, c * c);
    ProdIs(x - c, x - c);
    ProdIs(x, x);
    ProdIs(c, s + x);
    ProdIs(n + 1.0, c * c);
    SpreadAlgebra(s, n, x, c);
  }

  lemma SpreadAlgebra(s: real, n: real, x: real, c: real)
    ensures 0.0 - 2.0 * (c * s) + n * (c * c) + (x - c) * (x - c) == x * x - 2.0 * (c * (s + x)) + (n + 1.0) * (c * c)
  {
  }

  lemma SpreadPositive(w: seq<real>, c: real)
    ensures Spread(w, c) >= 0.0
  {
    if w != [] {
      SpreadPositive(w[..|w| - 1], c);
      SquareSign(w[|w| - 1] - c);
    }
  }

  function Mean(w: seq<real>): real {
    if w == [] then 0.0 else Sum(w) / |w| as real
  }

  /** `r` is the mean squared distance from the mean; 0 for fewer than two values. */
  ghost predicate IsVariance(w: seq<real>, r: real) {
    if |w| <= 1 then r == 0.0 else r * |w| as real == Spread(w, Mean(w))
  }

  /** The mean of squares less the square of the mean is the mean squared distance from the mean, and so
      never negative. */
  lemma VarianceIs(w: seq<real>)
    requires w != []
    ensures var n := |w| as real; var mean := Sum(w) / n;
      && (SumSq(w) / n - mean * mean) * n == Spread(w, mean)
      && SumSq(w) / n - mean * mean >= 0.0
  {
    var n := |w| as real;
    var mean := Sum(w) / n;
    SpreadIs(w, mean);
    SpreadPositive(w, mean);
    MeanAlgebra(SumSq(w), Sum(w), n, mean, Spread(w, mean));
  }

  lemma MeanAlgebra(q: real, s: real, n: real, m: real, spread: real)
    requires n > 0.0 && m == s / n && spread == q - 2.0 * Prod(m, s) + Prod(n, Prod(m, m)) && spread >= 0.0
    ensures (q / n - m * m) * n == spread && q / n - m * m >= 0.0
  {
    ProdIs(m, s);
    ProdIs(m, m);
    ProdIs(n, m * m);
    assert m * n == s;
    assert q / n * n == q;
    assert n * (m * m) == (m * n) * m;
    assert (q / n - m * m) * n == q / n * n - m * m * n;
    NonNegativeFactor(q / n - m * m, n);
  }

  lemma NonNegativeFactor(x: real, n: real)
    requires n > 0.0 && x * n >= 0.0
    ensures x >= 0.0
  {
    if x < 0.0 {
      NegativeProduct(x, n);
    }
  }

  lemma NegativeProduct(x: real, n: real)
    requires x < 0.0 && n > 0.0
    ensures x * n < 0.0
  {
  }

  // ---- least squares ---------------------------------------------------------------------------

  /** The squared error of the line `a0 + a1 * x` over the points `(i, w[i])`. */
  ghost function Err(w: seq<real>, a0: real, a1: real): real {
    if w == [] then 0.0
    else
      var r := w[|w| - 1] - a0 - Prod(a1, (|w| - 1) as real);
      Err(w[..|w| - 1], a0, a1) + Prod(r, r)
  }

  /** The same error from the sums over the points. */
  ghost function Poly(q: real, y: real, xy: real, n: real, x: real, xx: real, a0: real, a1: real): real {
    q - 2.0 * Prod(a0, y) - 2.0 * Prod(a1, xy) + Prod(n, Prod(a0, a0)) + 2.0 * Prod(x, Prod(a0, a1)) + Prod(xx,
      Prod(a1, a1))
  }

  lemma PolyIs(q: real, y: real, xy: real, n: real, x: real, xx: real, a0: real, a1: real)
    ensures Poly(q, y, xy, n, x, xx, a0, a1) ==
      q - 2.0 * (a0 * y) - 2.0 * (a1 * xy) + n * (a0 * a0) + 2.0 * (x * (a0 * a1)) + xx * (a1 * a1)
  {
    ProdIs(a0, y);
    ProdIs(a1, xy);
    ProdIs(a0, a0);
    ProdIs(n, a0 * a0);
    ProdIs(a0, a1);
    ProdIs(x, a0 * a1);
    ProdIs(a1, a1);
    ProdIs(xx, a1 * a1);
  }

  lemma PolyStep(q: real, y: real, xy: real, n: real, x: real, xx: real, a0: real, a1: real, i: real, v: real)
    ensures var r := v - a0 - Prod(a1, i);
      Poly(q, y, xy, n, x, xx, a0, a1) + Prod(r, r) ==
      Poly(q + Prod(v, v), y + v, xy + Prod(i, v), n + 1.0, x + i, xx + Prod(i, i), a0, a1)
  {
    var r := v - a0 - Prod(a1, i);
    PolyIs(q, y, xy, n, x, xx, a0, a1);
    PolyIs(q + Prod(v, v), y + v, xy + Prod(i, v), n + 1.0, x + i, xx + Prod(i, i), a0, a1);
    ProdIs(a1, i);
    ProdIs(r, r);
    ProdIs(v, v);
    ProdIs(i, v);
    ProdIs(i, i);
    StepAlgebra(y, xy, n, x, xx, a0, a1, i, v);
  }

  lemma StepAlgebra(y: real, xy: real, n: real, x: real, xx: real, a0: real, a1: real, i: real, v: real)
    ensures 0.0 - 2.0 * (a0 * y) - 2.0 * (a1 * xy) + n * (a0 * a0) + 2.0 * (x * (a0 * a1)) + xx * (a1 * a1)
        + (v - a0 - a1 * i) * (v - a0 - a1 * i) ==
      v * v - 2.0 * (a0 * (y + v)) - 2.0 * (a1 * (xy + i * v)) + (n + 1.0) * (a0 * a0) + 2.0 * ((x + i) * (a0 * a1))
        + (xx + i * i) * (a1 * a1)
  {
  }

  lemma ErrIs(w: seq<real>, a0: real, a1: real)
    ensures Err(w, a0, a1) == Poly(SumSq(w), Sum(w), SumXY(w), |w| as real, SumX(|w|), SumXX(|w|), a0, a1)
  {
    if w == [] {
      PolyIs(0.0, 0.0, 0.0, 0.0, 0.0, 0.0, a0, a1);
    } else {
      var v := w[..|w| - 1];
      ErrIs(v, a0, a1);
      PolyStep(SumSq(v), Sum(v), SumXY(v), |v| as real, SumX(|v|), SumXX(|v|), a0, a1, |v| as real, w[|w| - 1]);
    }
  }

  lemma ErrSign(w: seq<real>, a0: real, a1: real)
    ensures Err(w, a0, a1) >= 0.0
    ensures w != [] && w[0] != a0 ==> Err(w, a0, a1) > 0.0
  {
    if w != [] {
      ErrSign(w[..|w| - 1], a0, a1);
      var r := w[|w| - 1] - a0 - Prod(a1, (|w| - 1) as real);
      SquareSign(r);
      ProdIs(a1, (|w| - 1) as real);
    }
  }

  ghost function Zeros(n: nat): seq<real> {
    seq(n, _ => 0.0)
  }

  lemma ZeroSums(n: nat)
    ensures SumSq(Zeros(n)) == 0.0 && Sum(Zeros(n)) == 0.0 && SumXY(Zeros(n)) == 0.0
  {
    if n > 0 {
      ZeroSums(n - 1);
      assert Zeros(n)[..n - 1] == Zeros(n - 1);
      ProdIs(0.0, 0.0);
      ProdIs((n - 1) as real, 0.0);
    }
  }

  /** A line other than zero misses two zeros somewhere. */
  lemma LineSign(n: nat, d0: real, d1: real)
    ensures Poly(0.0, 0.0, 0.0, n as real, SumX(n), SumXX(n), d0, d1) >= 0.0
    ensures n >= 2 && !(d0 == 0.0 && d1 == 0.0) ==> Poly(0.0, 0.0, 0.0, n as real, SumX(n), SumXX(n), d0, d1) > 0.0
  {
    ZeroSums(n);
    ErrIs(Zeros(n), d0, d1);
    ErrSign(Zeros(n), d0, d1);
    if n >= 2 && d0 == 0.0 && d1 != 0.0 {
      SlopeSign(n, d1);
    }
  }

  lemma SlopeSign(n: nat, d1: real)
    requires n >= 2 && d1 != 0.0
    ensures Err(Zeros(n), 0.0, d1) > 0.0
  {
    var z := Zeros(n);
    assert z[..n - 1] == Zeros(n - 1);
    ErrSign(Zeros(n - 1), 0.0, d1);
    var r := z[n - 1] - 0.0 - Prod(d1, (n - 1) as real);
    ProdIs(d1, (n - 1) as real);
    NonZeroProduct(d1, (n - 1) as real);
    SquareSign(r);
  }

  lemma NonZeroProduct(a: real, b: real)
    requires a != 0.0 && b > 0.0
    ensures a * b != 0.0
  {
    if a < 0.0 {
      NegativeProduct(a, b);
    } else {
      NegativeProduct(0.0 - a, b);
      assert (0.0 - a) * b == 0.0 - a * b;
    }
  }

  /** Around a solution of the normal equations the error grows by the squared distance of the lines. */
  lemma MinAlgebra(q: real, y: real, xy: real, n: real, x: real, xx: real, b0: real, b1: real, a0: real, a1: real)
    requires n * b0 + x * b1 == y && x * b0 + xx * b1 == xy
    ensures Poly(q, y, xy, n, x, xx, a0, a1) ==
      Poly(q, y, xy, n, x, xx, b0, b1) + Poly(0.0, 0.0, 0.0, n, x, xx, a0 - b0, a1 - b1)
  {
    PolyIs(q, y, xy, n, x, xx, a0, a1);
    PolyIs(q, y, xy, n, x, xx, b0, b1);
    PolyIs(0.0, 0.0, 0.0, n, x, xx, a0 - b0, a1 - b1);
    MinIdentity(y, xy, n, x, xx, b0, b1, a0, a1);
  }

  lemma MinIdentity(y: real, xy: real, n: real, x: real, xx: real, b0: real, b1: real, a0: real, a1: real)
    requires n * b0 + x * b1 == y && x * b0 + xx * b1 == xy
    ensures 0.0 - 2.0 * (a0 * y) - 2.0 * (a1 * xy) + n * (a0 * a0) + 2.0 * (x * (a0 * a1)) + xx * (a1 * a1) ==
      0.0 - 2.0 * (b0 * y) - 2.0 * (b1 * xy) + n * (b0 * b0) + 2.0 * (x * (b0 * b1)) + xx * (b1 * b1)
        + n * ((a0 - b0) * (a0 - b0)) + 2.0 * (x * ((a0 - b0) * (a1 - b1))) + xx * ((a1 - b1) * (a1 - b1))
  {
    assert a0 * y == a0 * (n * b0) + a0 * (x * b1);
    assert b0 * y == b0 * (n * b0) + b0 * (x * b1);
    assert a1 * xy == a1 * (x * b0) + a1 * (xx * b1);
    assert b1 * xy == b1 * (x * b0) + b1 * (xx * b1);
  }

  /** A solution of the normal equations is the one line of least squared error. */
  lemma LeastSquares(w: seq<real>, b0: real, b1: real)
    requires |w| >= 2
    requires |w| as real * b0 + SumX(|w|) * b1 == Sum(w) && SumX(|w|) * b0 + SumXX(|w|) * b1 == SumXY(w)
    ensures BestLine(w, b0, b1)
  {
    forall a0: real, a1: real | !(a0 == b0 && a1 == b1) ensures Err(w, b0, b1) < Err(w, a0, a1) {
      ErrIs(w, a0, a1);
      ErrIs(w, b0, b1);
      MinAlgebra(SumSq(w), Sum(w), SumXY(w), |w| as real, SumX(|w|), SumXX(|w|), b0, b1, a0, a1);
      LineSign(|w|, a0 - b0, a1 - b1);
    }
  }

  /** Every other line has a larger squared error. */
  ghost predicate BestLine(w: seq<real>, b0: real, b1: real) {
    forall a0: real, a1: real :: (a0 == b0 && a1 == b1) || Err(w, b0, b1) < Err(w, a0, a1)
  }

  lemma SumXPositive(n: nat)
    requires n >= 2
    ensures SumX(n) > 0.0
  {
    if n == 2 {
      assert SumX(1) == SumX(0) + 0 as real;
      assert SumX(2) == SumX(1) + 1 as real;
    } else {
      SumXPositive(n - 1);
    }
  }

  /** The spread of the abscissae is positive, so the slope is always the quotient. */
  lemma SxxPositive(n: nat)
    requires n >= 2
    ensures SumXX(n) - SumX(n) * SumX(n) / n as real > 0.0
  {
    SumXPositive(n);
    LineSign(n, 0.0 - SumX(n), n as real);
    SxxFromPoly(SumX(n), SumXX(n), n as real);
  }

  lemma SxxFromPoly(x: real, xx: real, c: real)
    requires c > 0.0 && Poly(0.0, 0.0, 0.0, c, x, xx, 0.0 - x, c) > 0.0
    ensures xx - x * x / c > 0.0
  {
    PolyIs(0.0, 0.0, 0.0, c, x, xx, 0.0 - x, c);
    SxxAlgebra(x, xx, c);
  }

  lemma SxxAlgebra(x: real, xx: real, c: real)
    requires c > 0.0
    requires c * ((0.0 - x) * (0.0 - x)) + 2.0 * (x * ((0.0 - x) * c)) + xx * (c * c) > 0.0
    ensures xx - x * x / c > 0.0
  {
    var d := xx - x * x / c;
    assert x * x / c * c == x * x;
    assert d * c == xx * c - x * x;
    assert d * c * c == c * ((0.0 - x) * (0.0 - x)) + 2.0 * (x * ((0.0 - x) * c)) + xx * (c * c);
    PositiveFactor(d * c, c);
    PositiveFactor(d, c);
  }

  lemma PositiveFactor(a: real, c: real)
    requires c > 0.0 && a * c > 0.0
    ensures a > 0.0
  {
    if a < 0.0 {
      NegativeProduct(a, c);
    }
  }

  /** The computed coefficients solve the normal equations. */
  lemma NormalEquations(n: real, x: real, xx: real, y: real, xy: real, b0: real, b1: real)
    requires n > 0.0 && xx - x * x / n > 0.0
    requires b1 == (xy - x * y / n) / (xx - x * x / n) && b0 == y / n - b1 * (x / n)
    ensures n * b0 + x * b1 == y && x * b0 + xx * b1 == xy
  {
    var sxx, sxy := xx - x * x / n, xy - x * y / n;
    assert b1 * sxx == sxy;
    assert n * (y / n) == y && n * (x / n) == x;
    assert n * (b1 * (x / n)) == b1 * (n * (x / n));
    assert n * b0 == n * (y / n) - n * (b1 * (x / n));
    assert x * (y / n) == x * y / n;
    assert x * (b1 * (x / n)) == b1 * (x * x / n);
    assert b1 * sxx == b1 * xx - b1 * (x * x / n);
  }

  // ---- the sequence ----------------------------------------------------------------------------

  class TruncatedSeq {
    const sequence: array<real>
    const length: nat
    var next: nat
    var num: nat
    var davg: real
    var sum: real
    var sumOfSquares: real

    /** Everything ever added. */
    ghost var history: seq<real>

    /** The ring holds the last values added, and the running sums are theirs. */
    ghost predicate Valid()
      reads this, sequence
    {
      && sequence.Length == MAX_LENGTH && 1 <= length <= MAX_LENGTH
      && Holds(Fields(sequence[..length], next, num, sum, sumOfSquares), history)
      && davg == Decayed(history)
    }

    ghost function Window(): seq<real>
      reads this
    {
      LastOf(history, length)
    }

    constructor (len: nat)
      requires len >= 1
      ensures Valid() && history == [] && length == (if len < MAX_LENGTH then len else MAX_LENGTH)
    {
      length := if len < MAX_LENGTH then len else MAX_LENGTH;
      sequence := new real[MAX_LENGTH](_ => 0.0);
      next, num, davg, sum, sumOfSquares := 0, 0, 0.0, 0.0, 0.0;
      history := [];
      new;
      OpenRing(sequence[..length], next, num, history);
    }

    method Add(val: real)
      requires Valid()
      modifies this, sequence
      ensures Valid() && history == old(history) + [val]
    {
      DecayedAdd(history, val);
      davg := if num == 0 then val else davg + 0.3 * (val - davg);
      Record(val);
    }

    method Record(val: real)
      requires sequence.Length == MAX_LENGTH && 1 <= length <= MAX_LENGTH
      requires Holds(Fields(sequence[..length], next, num, sum, sumOfSquares), history)
      modifies this`next, this`num, this`sum, this`sumOfSquares, this`history, sequence
      ensures Holds(Fields(sequence[..length], next, num, sum, sumOfSquares), history)
      ensures history == old(history) + [val]
    {
      ghost var before := Fields(sequence[..length], next, num, sum, sumOfSquares);
      Moved(before, history, val);
      Overwrite(val);
      history := history + [val];
      assert Fields(sequence[..length], next, num, sum, sumOfSquares) == Move(before, val);
    }

    method Overwrite(val: real)
      requires sequence.Length == MAX_LENGTH && 1 <= length <= MAX_LENGTH && next < length && num <= length
      modifies this`next, this`num, this`sum, this`sumOfSquares, sequence
      ensures Fields(sequence[..length], next, num, sum, sumOfSquares)
           == Move(Fields(old(sequence[..length]), old(next), old(num), old(sum), old(sumOfSquares)), val)
    {
      var oldVal := sequence[next];
      sum := sum - oldVal;
      sum := sum + val;
      sumOfSquares := Slide(sumOfSquares, oldVal, val);
      sequence[next] := val;
      next := Next(next, length);
      if num < length {
        num := num + 1;
      }
    }

    /** The value added last, 0 before any. */
    method Last() returns (r: real)
      requires Valid()
      ensures r == if history == [] then 0.0 else history[|history| - 1]
    {
      if num == 0 {
        return 0.0;
      }
      WindowAt(sequence[..length], next, num, history, num - 1);
      var k := SlotBefore(next, length);
      r := sequence[k];
    }

    method Avg() returns (r: real)
      requires Valid()
      ensures r == Mean(Window())
    {
      return if num == 0 then 0.0 else sum / num as real;
    }

    /** The mean squared distance from the mean; the guard against negative values never acts. */
    method Variance() returns (r: real)
      requires Valid()
      ensures IsVariance(Window(), r)
    {
      if num <= 1 {
        return 0.0;
      }
      var xBar := Avg();
      r := Clamped(sumOfSquares, num, xBar, Window());
    }

    /** The value at the next abscissa of the line of least squared error over the window. */
    method PredictNext() returns (r: real, ghost b0: real, ghost b1: real)
      requires Valid()
      ensures Window() == [] ==> r == 0.0
      ensures |Window()| == 1 ==> r == Window()[0]
      ensures |Window()| >= 2 ==> BestLine(Window(), b0, b1) && OnLine(b0, b1, |Window()|, r)
    {
      b0, b1 := 0.0, 0.0;
      if num == 0 {
        return 0.0, b0, b1;
      }
      if num == 1 {
        assert sequence[0] == Window()[0] by { OpenRing(sequence[..length], next, num, history); }
        return sequence[0], b0, b1;
      }
      var xx, x, y, xy := Accumulate();
      r, b0, b1 := Fit(num, xx, x, y, xy, Window());
    }

    /** Entry `i` of the window. */
    method At(i: nat) returns (yi: real)
      requires Valid() && i < num
      ensures yi == Window()[i]
    {
      WindowAt(sequence[..length], next, num, history, i);
      var k := Slot(next, num, length, i);
      yi := sequence[k];
    }

    /** The four sums over the window, read from its oldest entry on. */
    method Accumulate() returns (xx: real, x: real, y: real, xy: real)
      requires Valid() && num >= 1
      ensures xx == SumXX(num) && x == SumX(num) && y == Sum(Window()) && xy == SumXY(Window())
    {
      xx, x, y, xy := 0.0, 0.0, 0.0, 0.0;
      ghost var w := Window();
      for i := 0 to num
        invariant xx == SumXX(i) && x == SumX(i) && y == Sum(w[..i]) && xy == SumXY(w[..i])
      {
        SumsStep(w, i);
        var yi := At(i);
        xx, x, y, xy := Point(xx, x, y, xy, i, yi);
      }
      assert w[..num] == w;
    }
  }

  lemma SumsStep(w: seq<real>, i: nat)
    requires i < |w|
    ensures Sum(w[..i + 1]) == Sum(w[..i]) + w[i] && SumXY(w[..i + 1]) == SumXY(w[..i]) + Prod(i as real, w[i])
  {
    assert w[..i + 1][..i] == w[..i];
  }

  /** Add one point to the four sums. */
  method Point(xx: real, x: real, y: real, xy: real, i: nat, yi: real)
    returns (xx': real, x': real, y': real, xy': real)
    ensures xx' == xx + Prod(i as real, i as real) && x' == x + i as real && y' == y + yi
    ensures xy' == xy + Prod(i as real, yi)
  {
    var xi := i as real;
    ProdIs(xi, xi);
    ProdIs(xi, yi);
    return xx + xi * xi, x + xi, y + yi, xy + xi * yi;
  }

  /** Replace one square in a sum by another. */
  method Slide(q: real, oldVal: real, val: real) returns (r: real)
    ensures r == q - Prod(oldVal, oldVal) + Prod(val, val)
  {
    ProdIs(oldVal, oldVal);
    ProdIs(val, val);
    r := q - oldVal * oldVal;
    r := r + val * val;
  }

  method Clamped(q: real, num: nat, xBar: real, ghost w: seq<real>) returns (r: real)
    requires |w| > 1 && q == SumSq(w) && num == |w| && xBar == Mean(w)
    ensures IsVariance(w, r)
  {
    VarianceIs(w);
    r := q / num as real - xBar * xBar;
    if r < 0.0 {
      assert false; // the clamp never acts
    }
  }

  /** The coefficients of the regression line from the sums. */
  method Fit(num: nat, xx: real, x: real, y: real, xy: real, ghost w: seq<real>)
    returns (r: real, ghost b0: real, ghost b1: real)
    requires num == |w| >= 2 && xx == SumXX(num) && x == SumX(num) && y == Sum(w) && xy == SumXY(w)
    ensures BestLine(w, b0, b1) && OnLine(b0, b1, num, r)
  {
    var n := num as real;
    var xAvg, yAvg := x / n, y / n;
    var sxx, sxy := xx - x * x / n, xy - x * y / n;
    SxxPositive(num);
    var slope := if sxx == 0.0 then 0.0 else sxy / sxx;
    var intercept := yAvg - slope * xAvg;
    NormalEquations(n, x, xx, y, xy, intercept, slope);
    LeastSquares(w, intercept, slope);
    return intercept + slope * n, intercept, slope;
  }

  /** `r` is the ordinate of the line at abscissa `x`. */
  ghost predicate OnLine(b0: real, b1: real, x: nat, r: real) {
    r == b0 + b1 * x as real
  }

  /** The slot of entry `i` of the window: counted from the start of a growing ring, and from the next slot
      to write, round the end, in a full one. */
  function SlotOf(next: nat, num: nat, length: nat, i: nat): nat
    requires next < length
  {
    if num < length then i else if next + i < length then next + i else next + i - length
  }

  method Slot(next: nat, num: nat, length: nat, i: nat) returns (k: nat)
    requires next < length && num <= length && i < num && (num < length ==> next == num)
    ensures k == SlotOf(next, num, length, i) < length
  {
    var first := (next + length - num) % length;
    Remainder(next + length - num, length, if num < length then 0 else next);
    k := (first + i) % length;
    Remainder(first + i, length, SlotOf(next, num, length, i));
  }

  method SlotBefore(next: nat, length: nat) returns (k: nat)
    requires next < length
    ensures k == if next == 0 then length - 1 else next - 1
  {
    k := (next + length - 1) % length;
    Remainder(next + length - 1, length, if next == 0 then length - 1 else next - 1);
  }

  lemma WindowAt(s: seq<real>, next: nat, num: nat, h: seq<real>, i: nat)
    requires RingOk(s, next, num, h) && i < num
    ensures num < |s| ==> next == num
    ensures SlotOf(next, num, |s|, i) < |s| && LastOf(h, |s|)[i] == s[SlotOf(next, num, |s|, i)]
  {
    OpenRing(s, next, num, h);
    assert Ring(s, next, num)[i] == s[SlotOf(next, num, |s|, i)];
  }

  lemma Remainder(x: nat, n: nat, r: nat)
    requires n > 0 && r < n && (x == r || x == r + n)
    ensures x % n == r
  {
  }
}
