/** `MY_ALIGN(A, L)` on unsigned operands that are `w` bits wide, whatever `w` is. */
module Alignment {
  import opened Bits

  function Not(x: nat, w: nat): nat
    requires x < Pow2(w)
  {
    Pow2(w) - 1 - x
  }

  function MyAlign(a: nat, l: nat, w: nat): nat
    requires 0 < l <= Pow2(w)
  {
    And((a + l - 1) % Pow2(w), Not(l - 1, w))
  }

  function RoundedDown(s: nat, l: nat): nat
    requires l > 0
  {
    s - s % l
  }

  lemma MyAlignRoundsDown(a: nat, k: nat, w: nat)
    requires k <= w && a + Pow2(k) - 1 < Pow2(w)
    ensures Pow2(k) <= Pow2(w)
    ensures MyAlign(a, Pow2(k), w) == RoundedDown(a + Pow2(k) - 1, Pow2(k))
  {
    Pow2Grows(k, w);
    var l, p := Pow2(k), Pow2(w);
    var s := a + l - 1;
    assert s % p == s by {
      ModIsRemainder(s, p, 0, s);
    }
    assert Not(l - 1, w) == p - l;
    HighMaskRoundsDown(s, k, w);
  }

  lemma RoundedDownIsMultiple(s: nat, l: nat, q: int)
    requires l > 0 && q == s / l
    ensures RoundedDown(s, l) == q * l && (q * l) % l == 0
  {
    assert s == q * l + s % l;
    ModIsRemainder(q * l, l, q, 0);
  }

  /** Between a multiple and what it was rounded down from there is no other. */
  lemma MultiplesBelow(q: int, n: int, l: nat, s: nat)
    requires l > 0 && q * l <= s && n * l + l > s
    ensures q * l <= n * l
  {
    var d := q - n;
    assert d * l == q * l - n * l;
    MultipleIsFar(d, l);
  }

  lemma RoundedDownIsLeast(a: nat, l: nat, m: int)
    requires l > 0
    ensures var r := RoundedDown(a + l - 1, l);
            r % l == 0 && a <= r && (m % l == 0 && a <= m ==> r <= m)
  {
    var s := a + l - 1;
    var q, n := s / l, m / l;
    RoundedDownIsMultiple(s, l, q);
    if m % l == 0 && a <= m {
      assert m == n * l;
      MultiplesBelow(q, n, l, s);
    }
  }

  /** The least multiple of the power of two that is not below `a`. */
  lemma MyAlignIsLeast(a: nat, k: nat, w: nat, m: int)
    requires k <= w && a + Pow2(k) - 1 < Pow2(w)
    ensures Pow2(k) <= Pow2(w)
    ensures var (l, r) := (Pow2(k), MyAlign(a, Pow2(k), w));
            && r % l == 0 && a <= r
            && (m % l == 0 && a <= m ==> r <= m)
  {
    MyAlignRoundsDown(a, k, w);
    RoundedDownIsLeast(a, Pow2(k), m);
  }

  lemma MultiplesFit(r: nat, l: nat, c: nat)
    requires l > 0 && r % l == 0 && r < l * c
    ensures r + l <= l * c
  {
    var d := c - r / l;
    assert d * l == l * c - r;
    MultipleIsFar(d, l);
  }

  lemma MyAlignIsIdempotent(a: nat, k: nat, w: nat)
    requires k <= w && a + Pow2(k) - 1 < Pow2(w)
    ensures Pow2(k) <= Pow2(w)
    ensures MyAlign(MyAlign(a, Pow2(k), w), Pow2(k), w) == MyAlign(a, Pow2(k), w)
  {
    var r := MyAlign(a, Pow2(k), w);
    MyAlignIsLeast(a, k, w, r);
    MyAlignRoundsDown(a, k, w);
    Pow2Divides(k, w);
    MultiplesFit(r, Pow2(k), Pow2(w - k));
    MyAlignIsLeast(r, k, w, r);
  }

  lemma MyAlignIsMonotone(a: nat, b: nat, k: nat, w: nat)
    requires k <= w && a <= b && b + Pow2(k) - 1 < Pow2(w)
    ensures Pow2(k) <= Pow2(w) && MyAlign(a, Pow2(k), w) <= MyAlign(b, Pow2(k), w)
  {
    MyAlignIsLeast(b, k, w, 0);
    MyAlignIsLeast(a, k, w, MyAlign(b, Pow2(k), w));
  }

  /** Rounding up fails exactly when the addition wraps around; the result is then zero. */
  lemma MyAlignFailsIffItWraps(a: nat, k: nat, w: nat)
    requires k <= w && a < Pow2(w)
    ensures Pow2(k) <= Pow2(w)
    ensures a <= MyAlign(a, Pow2(k), w) <==> a + Pow2(k) - 1 < Pow2(w)
    ensures a + Pow2(k) - 1 >= Pow2(w) ==> MyAlign(a, Pow2(k), w) == 0
  {
    Pow2Grows(k, w);
    var l := Pow2(k);
    var s := a + l - 1;
    if s < Pow2(w) {
      MyAlignIsLeast(a, k, w, 0);
    } else {
      var t := s - Pow2(w);
      ModIsRemainder(s, Pow2(w), 1, t);
      HighMaskRoundsDown(t, k, w);
      ModIsRemainder(t, l, 0, t);
    }
  }
}
