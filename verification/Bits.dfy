/**
  Bitwise operations on natural numbers, and the few facts that tie them to arithmetic.
 */
module Bits {

  function Pow2(n: nat): (p: nat)
    ensures p > 0
  {
    if n == 0 then 1 else 2 * Pow2(n - 1)
  }

  function And(a: nat, b: nat): nat {
    if a == 0 || b == 0 then 0
    else 2 * And(a / 2, b / 2) + (if a % 2 == 1 && b % 2 == 1 then 1 else 0)
  }

  function Or(a: nat, b: nat): nat
    decreases a + b
  {
    if a == 0 then b else if b == 0 then a
    else 2 * Or(a / 2, b / 2) + (if a % 2 == 1 || b % 2 == 1 then 1 else 0)
  }

  lemma {:induction false} Pow2Grows(k: nat, n: nat)
    requires k <= n
    ensures Pow2(k) <= Pow2(n)
  {
    if k < n {
      Pow2Grows(k, n - 1);
    }
  }

  lemma {:induction false} Pow2Divides(k: nat, n: nat)
    requires k <= n
    ensures Pow2(n) == Pow2(k) * Pow2(n - k)
  {
    if k > 0 {
      Pow2Divides(k - 1, n - 1);
      Doubled(Pow2(k - 1), Pow2(n - k));
    }
  }

  lemma Doubled(a: nat, b: nat)
    ensures (2 * a) * b == 2 * (a * b)
  {
  }

  /** Dropping the lowest bit halves a remainder. */
  lemma ModHalf(a: nat, m: nat)
    requires m > 0
    ensures a % (2 * m) == 2 * ((a / 2) % m) + a % 2
  {
    var q, r := (a / 2) / m, (a / 2) % m;
    assert a == (q * m + r) * 2 + a % 2;
    assert a == q * (2 * m) + (2 * r + a % 2);
    ModIsRemainder(a, 2 * m, q, 2 * r + a % 2);
  }

  lemma ModIsRemainder(a: int, m: int, q: int, r: int)
    requires m > 0 && a == q * m + r && 0 <= r < m
    ensures a % m == r && a / m == q
  {
    var d := a / m - q;
    assert d * m == r - a % m;
    MultipleIsFar(d, m);
  }

  lemma MultipleIsFar(d: int, m: int)
    requires m > 0
    ensures d >= 1 ==> d * m >= m
    ensures d <= -1 ==> d * m <= -m
    ensures d == 0 ==> d * m == 0
  {
  }

  lemma AndWithEven(a: nat, c: nat)
    ensures And(a, 2 * c) == 2 * And(a / 2, c)
  {
  }

  lemma AndWithOdd(a: nat, c: nat)
    ensures And(a, 2 * c + 1) == 2 * And(a / 2, c) + a % 2
  {
  }

  lemma MaskByHalves(a: nat, p: nat, q: nat)
    requires q <= p
    ensures And(a, 2 * p - 2 * q) == 2 * And(a / 2, p - q)
  {
    AndWithEven(a, p - q);
  }

  /** `a` with its `k` low bits cleared. */
  function Cleared(a: nat, k: nat): nat {
    if k == 0 then a else 2 * Cleared(a / 2, k - 1)
  }

  lemma {:induction false} ClearedIsRoundedDown(a: nat, k: nat)
    ensures Cleared(a, k) == a - a % Pow2(k)
    decreases k
  {
    if k > 0 {
      ClearedIsRoundedDown(a / 2, k - 1);
      ModHalf(a, Pow2(k - 1));
    }
  }

  lemma FullMaskKeeps(a: nat, w: nat)
    requires w > 0 && And(a / 2, Pow2(w - 1) - 1) == a / 2
    ensures And(a, Pow2(w) - 1) == a
  {
    AndWithOdd(a, Pow2(w - 1) - 1);
  }

  lemma HalvedMaskClears(a: nat, k: nat, w: nat)
    requires 0 < k <= w && Pow2(k - 1) <= Pow2(w - 1)
    requires And(a / 2, Pow2(w - 1) - Pow2(k - 1)) == Cleared(a / 2, k - 1)
    ensures And(a, Pow2(w) - Pow2(k)) == Cleared(a, k)
  {
    MaskByHalves(a, Pow2(w - 1), Pow2(k - 1));
  }

  lemma {:induction false} HighMaskClears(a: nat, k: nat, w: nat)
    requires k <= w && a < Pow2(w)
    ensures Pow2(k) <= Pow2(w)
    ensures And(a, Pow2(w) - Pow2(k)) == Cleared(a, k)
    decreases w
  {
    Pow2Grows(k, w);
    if k > 0 {
      HighMaskClears(a / 2, k - 1, w - 1);
      HalvedMaskClears(a, k, w);
    } else if w > 0 {
      HighMaskClears(a / 2, 0, w - 1);
      FullMaskKeeps(a, w);
    }
  }

  lemma HalvedMask(a: nat, p: nat)
    requires p > 0 && And(a / 2, p - 1) == (a / 2) % p
    ensures And(a, 2 * (p - 1) + 1) == 2 * ((a / 2) % p) + a % 2
  {
    AndWithOdd(a, p - 1);
  }

  /** A mask of the low bits takes a remainder. */
  lemma {:induction false} LowMaskTakesRemainder(a: nat, k: nat)
    ensures And(a, Pow2(k) - 1) == a % Pow2(k)
    decreases k
  {
    if k > 0 {
      LowMaskTakesRemainder(a / 2, k - 1);
      HalvedMask(a, Pow2(k - 1));
      ModHalf(a, Pow2(k - 1));
    }
  }

  /** A mask of the high bits rounds down to a multiple of a power of two. */
  lemma HighMaskRoundsDown(a: nat, k: nat, w: nat)
    requires k <= w && a < Pow2(w)
    ensures Pow2(k) <= Pow2(w)
    ensures And(a, Pow2(w) - Pow2(k)) == a - a % Pow2(k)
  {
    HighMaskClears(a, k, w);
    ClearedIsRoundedDown(a, k);
  }

  /** Or-ing into bits that are all clear adds. */
  lemma {:induction false} OrOfDisjointAdds(a: nat, b: nat, k: nat)
    requires b < Pow2(k)
    ensures Or(a * Pow2(k), b) == a * Pow2(k) + b
    decreases k
  {
    if k > 0 && a > 0 && b > 0 {
      var h := a * Pow2(k - 1);
      assert a * Pow2(k) == 2 * h;
      assert h > 0;
      OrOfDisjointAdds(a, b / 2, k - 1);
      assert Or(2 * h, b) == 2 * Or(h, b / 2) + (if b % 2 == 1 then 1 else 0);
    }
  }

  /** Testing one bit. */
  lemma {:induction false} AndWithOneBit(a: nat, j: nat)
    ensures And(a, Pow2(j)) == Pow2(j) * ((a / Pow2(j)) % 2)
    decreases j
  {
    if j > 0 {
      var p := Pow2(j - 1);
      AndWithOneBit(a / 2, j - 1);
      HalvesDivide(a, p);
      AndWithEven(a, p);
    }
  }

  lemma HalvesDivide(a: nat, m: nat)
    requires m > 0
    ensures (a / 2) / m == a / (2 * m)
  {
    var q, r := (a / 2) / m, (a / 2) % m;
    assert a == q * (2 * m) + (2 * r + a % 2) by {
      assert a == (q * m + r) * 2 + a % 2;
    }
    ModIsRemainder(a, 2 * m, q, 2 * r + a % 2);
  }
}
