/** Unsigned machine words as natural numbers, and the bit operations the models need. */
module Words {

  import opened Alignment
  import opened Sealing

  const BITS: nat := 64

  function Pow2(n: nat): Pos {
    if n == 0 then 1 else 2 * Pow2(n - 1)
  }

  /** Bit `i`. */
  predicate Bit(v: nat, i: nat) {
    if i == 0 then v % 2 == 1 else Bit(v / 2, i - 1)
  }

  function Or(a: nat, b: nat): nat {
    if a == 0 then b
    else if b == 0 then a
    else 2 * Or(a / 2, b / 2) + if a % 2 == 1 || b % 2 == 1 then 1 else 0
  }

  function And(a: nat, b: nat): nat {
    if a == 0 || b == 0 then 0
    else 2 * And(a / 2, b / 2) + if a % 2 == 1 && b % 2 == 1 then 1 else 0
  }

  /** The complement within `n` bits. */
  function Not(v: nat, n: nat): nat {
    if n == 0 then 0 else 2 * Not(v / 2, n - 1) + 1 - v % 2
  }

  function Shr(v: nat, i: nat): nat {
    if i == 0 then v else Shr(v / 2, i - 1)
  }

  lemma ZeroBit(i: nat)
    ensures !Bit(0, i)
  {
  }

  lemma OrBit(a: nat, b: nat, i: nat)
    ensures Bit(Or(a, b), i) <==> Bit(a, i) || Bit(b, i)
  {
    ZeroBit(i);
    if a != 0 && b != 0 {
      assert Or(a, b) / 2 == Or(a / 2, b / 2);
      if i > 0 {
        OrBit(a / 2, b / 2, i - 1);
      }
    }
  }

  lemma AndBit(a: nat, b: nat, i: nat)
    ensures Bit(And(a, b), i) <==> Bit(a, i) && Bit(b, i)
  {
    ZeroBit(i);
    if a != 0 && b != 0 {
      assert And(a, b) / 2 == And(a / 2, b / 2);
      if i > 0 {
        AndBit(a / 2, b / 2, i - 1);
      }
    }
  }

  lemma NotBit(v: nat, n: nat, i: nat)
    ensures Bit(Not(v, n), i) <==> i < n && !Bit(v, i)
  {
    if n == 0 {
      ZeroBit(i);
    } else {
      assert Not(v, n) / 2 == Not(v / 2, n - 1);
      if i > 0 {
        NotBit(v / 2, n - 1, i - 1);
      }
    }
  }

  lemma ShrBit(v: nat, i: nat, j: nat)
    ensures Bit(Shr(v, i), j) <==> Bit(v, i + j)
  {
    if i > 0 {
      ShrBit(v / 2, i - 1, j);
    }
  }

  lemma Pow2Bit(i: nat, j: nat)
    ensures Bit(Pow2(i), j) <==> i == j
  {
    if i == 0 {
      if j > 0 {
        ZeroBit(j - 1);
      }
    } else if j > 0 {
      Pow2Bit(i - 1, j - 1);
    }
  }

  /** The bits below `i`. */
  lemma LowBit(i: nat, j: nat)
    ensures Bit(Pow2(i) - 1, j) <==> j < i
  {
    if i == 0 {
      ZeroBit(j);
    } else {
      assert (Pow2(i) - 1) / 2 == Pow2(i - 1) - 1;
      if j > 0 {
        LowBit(i - 1, j - 1);
      }
    }
  }

  /** A word below `2^n` has no bit from `n` on. */
  lemma WidthBit(v: nat, n: nat, j: nat)
    requires v < Pow2(n) && n <= j
    ensures !Bit(v, j)
  {
    if n == 0 {
      ZeroBit(j);
    } else {
      WidthBit(v / 2, n - 1, j - 1);
    }
  }

  lemma OrWidth(a: nat, b: nat, n: nat)
    requires a < Pow2(n) && b < Pow2(n)
    ensures Or(a, b) < Pow2(n)
  {
    if n > 0 {
      OrWidth(a / 2, b / 2, n - 1);
    }
  }

  lemma AndWidth(a: nat, b: nat, n: nat)
    requires a < Pow2(n)
    ensures And(a, b) < Pow2(n)
  {
    if n > 0 && a != 0 && b != 0 {
      AndWidth(a / 2, b / 2, n - 1);
    }
  }

  lemma NotWidth(v: nat, n: nat)
    ensures Not(v, n) < Pow2(n)
  {
  }

  lemma Pow2Monotone(i: nat, n: nat)
    requires i <= n
    ensures Pow2(i) <= Pow2(n)
    ensures i < n ==> Pow2(i) < Pow2(n)
  {
    if i < n {
      Pow2Monotone(i, n - 1);
    }
  }

  /** Count of trailing zeros: the position of the lowest set bit. */
  function Ctz(v: nat): (k: nat)
    requires v != 0
    ensures Bit(v, k) && forall j: nat | j < k :: !Bit(v, j)
  {
    if v % 2 == 1 then 0 else Ctz(v / 2) + 1
  }

  /** The position of the highest set bit. */
  function Top(v: nat): (k: nat)
    requires v != 0
    ensures Bit(v, k) && forall j: nat | j > k :: !Bit(v, j)
  {
    if v == 1 then
      OnlyBit();
      0
    else Top(v / 2) + 1
  }

  lemma OnlyBit()
    ensures forall j: nat | j > 0 :: !Bit(1, j)
  {
    forall j: nat | j > 0 ensures !Bit(1, j) {
      ZeroBit(j - 1);
    }
  }

  lemma NoBits()
    ensures forall j: nat :: !Bit(0, j)
  {
    forall j: nat ensures !Bit(0, j) {
      ZeroBit(j);
    }
  }

  /** Fits into 64 bits; sealed. */
  ghost predicate IsWord(v: nat) {
    forall k: nat :: Opens(k) ==> v < Pow2(BITS)
  }

  lemma WordBit(v: nat, j: nat)
    requires IsWord(v) && j >= BITS
    ensures !Bit(v, j)
  {
    assert Opens(0);
    WidthBit(v, BITS, j);
  }

  lemma OrWord(a: nat, b: nat)
    requires IsWord(a) && IsWord(b)
    ensures IsWord(Or(a, b))
  {
    assert Opens(0);
    OrWidth(a, b, BITS);
  }

  lemma AndWord(a: nat, b: nat)
    requires IsWord(a)
    ensures IsWord(And(a, b))
  {
    assert Opens(0);
    AndWidth(a, b, BITS);
  }

  lemma NotWord(v: nat)
    ensures IsWord(Not(v, BITS))
  {
    NotWidth(v, BITS);
  }

  lemma LowWord(i: nat)
    requires i <= BITS
    ensures IsWord(Pow2(i) - 1)
  {
    Pow2Monotone(i, BITS);
  }
}
