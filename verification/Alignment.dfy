/** Rounding to powers of two (MRT_ALIGN in runtime/src/Common/TypeDef.h), shared by the models.

    Divisibility is sealed, so that the solver meets remainders only in the few lemmas that open it. */
module Alignment {

  import opened Sealing

  type Pos = n: nat | n > 0 witness 1

  predicate PowerOfTwo(n: nat) {
    n == 1 || (n > 0 && n % 2 == 0 && PowerOfTwo(n / 2))
  }

  /** `x` is a multiple of `a`. */
  ghost predicate Aligned(x: nat, a: Pos) {
    forall k: nat :: Opens(k) ==> x % a == 0
  }

  lemma Open(x: nat, a: Pos)
    requires Aligned(x, a)
    ensures x % a == 0
  {
    assert Opens(0);
  }

  /** The least multiple of `a` that is not below `x`. */
  ghost function Up(x: nat, a: Pos): (r: nat)
    ensures x <= r < x + a && Aligned(r, a)
  {
    Rounded(x, a);
    var r: nat :| x <= r < x + a && Aligned(r, a);
    r
  }

  /** What the rounding macro computes, with the mask as a division. */
  function RoundUp(x: nat, a: Pos): (r: nat)
    ensures r == Up(x, a)
  {
    Rounded(x, a);
    UpUnique(x, a, (x + a - 1) / a * a);
    (x + a - 1) / a * a
  }

  lemma Rounded(x: nat, a: Pos)
    ensures x <= (x + a - 1) / a * a < x + a && Aligned((x + a - 1) / a * a, a)
  {
    var q := (x + a - 1) / a;
    assert x + a - 1 == q * a + (x + a - 1) % a;
    Multiple(q, a);
  }

  lemma Multiple(q: nat, a: Pos)
    ensures q * a % a == 0
  {
    if q > 0 {
      Multiple(q - 1, a);
      assert q * a == (q - 1) * a + a;
      PlusModulus((q - 1) * a, a);
    }
  }

  lemma PlusModulus(x: nat, a: Pos)
    ensures (x + a) % a == x % a
  {
    assert x + a == (x / a + 1) * a + x % a;
    Unique(x + a, a, x / a + 1, x % a);
  }

  lemma Product(d: int, a: nat)
    ensures d >= 1 ==> d * a >= a
    ensures d <= -1 ==> d * a <= 0 - a
  {
  }

  lemma Unique(x: int, a: Pos, q: int, r: nat)
    requires x == q * a + r && r < a
    ensures x / a == q && x % a == r
  {
    var d := x / a - q;
    assert d * a == r - x % a;
    Product(d, a);
  }

  lemma Quotient(x: nat, a: Pos) returns (q: nat)
    requires Aligned(x, a)
    ensures x == q * a
  {
    Open(x, a);
    q := x / a;
  }

  lemma Distribute(p: int, q: int, a: int)
    ensures (p - q) * a == p * a - q * a
  {
  }

  /** Multiples are at least `a` apart. */
  lemma Apart(x: nat, y: nat, a: Pos)
    requires Aligned(x, a) && Aligned(y, a) && x < y
    ensures x + a <= y
  {
    var p: int := Quotient(x, a);
    var q: int := Quotient(y, a);
    Distribute(q, p, a);
    Product(q - p, a);
  }

  lemma UpUnique(x: nat, a: Pos, r: nat)
    requires x <= r < x + a && Aligned(r, a)
    ensures r == Up(x, a)
  {
    if r < Up(x, a) {
      Apart(r, Up(x, a), a);
    } else if Up(x, a) < r {
      Apart(Up(x, a), r, a);
    }
  }

  /** `Up` is the least multiple. */
  lemma UpLeast(x: nat, a: Pos, m: nat)
    requires Aligned(m, a) && x <= m
    ensures Up(x, a) <= m
  {
    if m < Up(x, a) {
      Apart(m, Up(x, a), a);
    }
  }

  lemma UpMonotone(x: nat, y: nat, a: Pos)
    requires x <= y
    ensures Up(x, a) <= Up(y, a)
  {
    UpLeast(x, a, Up(y, a));
  }

  lemma UpExact(x: nat, a: Pos)
    requires Aligned(x, a)
    ensures Up(x, a) == x
  {
    UpLeast(x, a, x);
  }

  lemma AlignedSum(x: nat, y: nat, a: Pos)
    requires Aligned(x, a) && Aligned(y, a)
    ensures Aligned(x + y, a)
  {
    var p := Quotient(x, a);
    var q := Quotient(y, a);
    assert x + y == (p + q) * a;
    Multiple(p + q, a);
  }

  lemma AlignedPart(x: nat, y: nat, a: Pos)
    requires Aligned(x + y, a) && Aligned(y, a)
    ensures Aligned(x, a)
  {
    if Up(x, a) != x {
      AlignedSum(Up(x, a), y, a);
      Apart(x + y, Up(x, a) + y, a);
    }
  }

  /** Of two powers of two, the smaller divides the larger. */
  lemma PowersDivide(a: Pos, b: Pos)
    requires PowerOfTwo(a) && PowerOfTwo(b) && a <= b
    ensures Aligned(b, a)
  {
    if a != 1 {
      PowersDivide(a / 2, b / 2);
      var q := Quotient(b / 2, a / 2);
      assert b == q * a;
      Multiple(q, a);
    }
  }

  /** Divisibility is transitive. */
  lemma Coarser(x: nat, a: Pos, b: Pos)
    requires Aligned(b, a) && Aligned(x, b)
    ensures Aligned(x, a)
  {
    var p := Quotient(b, a);
    var q := Quotient(x, b);
    assert x == (q * p) * a;
    Multiple(q * p, a);
  }
}
