/**
  When `Map::InnerMap` changes its number of buckets, and to what.  All numbers here stay below
  2^64, so nothing wraps.
 */
module MapLoads {
  import opened Bits

  const MIN_TABLE_SIZE: nat := 8
  const MAX_SIZE: nat := 0x1000_0000_0000_0000

  /** The number of buckets is a power of two. */
  ghost predicate IsTableSize(n: nat) {
    MIN_TABLE_SIZE <= n <= MAX_SIZE && exists j: nat :: n == Pow2(j)
  }

  function HiCutoff(n: nat): nat {
    n * 12 / 16
  }

  function LoCutoff(n: nat): nat {
    HiCutoff(n) / 4
  }

  /** A quarter more elements than there are, and one: what a shrunken table should still have room for. */
  function Hypothetical(newSize: nat): (h: nat)
    ensures h > 0
  {
    newSize * 5 / 4 + 1
  }

  /** The least exponent from `lg` on that brings `h` up to `hi`. */
  function ReductionFrom(h: nat, hi: nat, lg: nat): nat
    requires h > 0
    decreases hi - h * Pow2(lg)
  {
    if h * Pow2(lg) < hi then
      Grows(h, Pow2(lg));
      ReductionFrom(h, hi, lg + 1)
    else lg
  }

  lemma Grows(h: nat, p: nat)
    requires h > 0 && p > 0
    ensures h * (2 * p) > h * p
  {
  }

  function ShiftedDown(n: nat, lg: nat): int {
    n / Pow2(lg)
  }

  function Shrunk(n: nat, newSize: nat): nat {
    var m := ShiftedDown(n, ReductionFrom(Hypothetical(newSize), HiCutoff(n), 1));
    if MIN_TABLE_SIZE < m then m else MIN_TABLE_SIZE
  }

  method Reduction(h: nat, hi: nat) returns (lg: nat)
    requires h > 0
    ensures lg == ReductionFrom(h, hi, 1)
  {
    lg := 1;
    while h * Pow2(lg) < hi
      invariant ReductionFrom(h, hi, lg) == ReductionFrom(h, hi, 1)
      decreases hi - h * Pow2(lg)
    {
      Grows(h, Pow2(lg));
      lg := lg + 1;
    }
  }

  method ShrunkSize(n: nat, newSize: nat) returns (size: nat)
    ensures size == Shrunk(n, newSize)
  {
    var lg := Reduction(Hypothetical(newSize), HiCutoff(n));
    var m := ShiftedDown(n, lg);
    size := if MIN_TABLE_SIZE < m then m else MIN_TABLE_SIZE;
  }

  /** Is the load so low that an insertion shrinks the table? */
  predicate Shrinks(n: nat, newSize: nat) {
    newSize < HiCutoff(n) && newSize <= LoCutoff(n) && n > MIN_TABLE_SIZE
  }

  /** The number of buckets once `newSize` elements are to fit. */
  function TargetSize(n: nat, newSize: nat): nat {
    if newSize >= HiCutoff(n) then if n <= MAX_SIZE / 2 then 2 * n else n
    else if Shrinks(n, newSize) then Shrunk(n, newSize)
    else n
  }

  // ----- the sizes are powers of two

  lemma DivideTwice(n: nat, p: nat)
    requires p > 0
    ensures (2 * n) / (2 * p) == n / p
  {
    ModIsRemainder(2 * n, 2 * p, n / p, 2 * (n % p));
  }

  lemma {:induction false} ShiftedPow2(j: nat, lg: nat)
    ensures Pow2(j) / Pow2(lg) == if lg <= j then Pow2(j - lg) else 0
  {
    if j > 0 && lg > 0 {
      ShiftedPow2(j - 1, lg - 1);
      DivideTwice(Pow2(j - 1), Pow2(lg - 1));
    } else if lg > 0 {
      Pow2Grows(1, lg);
    }
  }

  lemma ShrunkIsTableSize(n: nat, newSize: nat)
    requires IsTableSize(n)
    ensures IsTableSize(Shrunk(n, newSize)) && Shrunk(n, newSize) <= n
  {
    var j: nat :| n == Pow2(j);
    var lg := ReductionFrom(Hypothetical(newSize), HiCutoff(n), 1);
    ShiftedPow2(j, lg);
    if lg <= j {
      Pow2Grows(j - lg, j);
    }
    assert MIN_TABLE_SIZE == Pow2(3);
  }

  lemma DoubleIsTableSize(n: nat)
    requires IsTableSize(n) && n <= MAX_SIZE / 2
    ensures IsTableSize(2 * n)
  {
    var j: nat :| n == Pow2(j);
    assert 2 * n == Pow2(j + 1);
  }

  lemma TargetIsTableSize(n: nat, newSize: nat)
    requires IsTableSize(n)
    ensures IsTableSize(TargetSize(n, newSize))
  {
    if newSize >= HiCutoff(n) && n <= MAX_SIZE / 2 {
      DoubleIsTableSize(n);
    }
    ShrunkIsTableSize(n, newSize);
  }

  // ----- what shrinking leaves room for

  lemma {:induction false} ReductionIsLeast(h: nat, hi: nat, lg: nat)
    requires h > 0
    ensures var r := ReductionFrom(h, hi, lg);
            r >= lg && h * Pow2(r) >= hi && (r > lg ==> h * Pow2(r - 1) < hi)
    decreases hi - h * Pow2(lg)
  {
    if h * Pow2(lg) < hi {
      Grows(h, Pow2(lg));
      ReductionIsLeast(h, hi, lg + 1);
    }
  }

  /** A table of 4 * 2^k buckets is at its limit with 3 * 2^k elements. */
  lemma CutoffOfPow2(k: nat)
    ensures HiCutoff(4 * Pow2(k)) == 3 * Pow2(k)
  {
  }

  lemma TableSizeIs(n: nat) returns (k: nat)
    requires IsTableSize(n)
    ensures k >= 1 && n == 4 * Pow2(k) && HiCutoff(n) == 3 * Pow2(k)
  {
    var j: nat :| n == Pow2(j);
    assert Pow2(2) == 4;
    if j <= 2 {
      Pow2Grows(j, 2);
    }
    assert Pow2(j) == 2 * Pow2(j - 1) && Pow2(j - 1) == 2 * Pow2(j - 2);
    k := j - 2;
    CutoffOfPow2(k);
  }

  /** Multiplying by a power of two keeps order, both ways. */
  lemma ScaledOrder(a: nat, b: nat, p: nat)
    requires p > 0
    ensures a * p <= b * p <==> a <= b
    ensures a * p < b * p <==> a < b
  {
  }

  lemma ScaledThird(m: nat, lg: nat)
    ensures 3 * Pow2(m + lg) == (3 * Pow2(m)) * Pow2(lg)
  {
    Pow2Divides(lg, m + lg);
    Regroup(Pow2(m), Pow2(lg));
  }

  lemma Regroup(a: nat, b: nat)
    ensures 3 * (b * a) == (3 * a) * b
  {
  }

  lemma ScaledBack(h: nat, m: nat, lg: nat)
    requires lg >= 1
    ensures h * Pow2(lg) >= 3 * Pow2(m + lg) ==> 3 * Pow2(m) <= h
    ensures h * Pow2(lg - 1) < 3 * Pow2(m + lg) ==> h < 3 * Pow2(m + 1)
  {
    ScaledThird(m, lg);
    ScaledOrder(3 * Pow2(m), h, Pow2(lg));
    ScaledThird(m + 1, lg - 1);
    ScaledOrder(h, 3 * Pow2(m + 1), Pow2(lg - 1));
  }

  /** The limit of the shrunken table is the greatest 3 * 2^m that the hypothetical size reaches. */
  lemma ShrunkLimit(n: nat, newSize: nat) returns (m: nat)
    requires IsTableSize(n) && Shrinks(n, newSize) && newSize >= 4
    ensures Shrunk(n, newSize) == 4 * Pow2(m) && HiCutoff(Shrunk(n, newSize)) == 3 * Pow2(m)
    ensures 3 * Pow2(m) <= Hypothetical(newSize) < 3 * Pow2(m + 1)
  {
    var k := TableSizeIs(n);
    var h := Hypothetical(newSize);
    var lg := ReductionFrom(h, 3 * Pow2(k), 1);
    ReductionIsLeast(h, 3 * Pow2(k), 1);
    ReductionIsBetween(h, k, lg, newSize);
    m := k - lg;
    ShrunkTo(n, k, lg, m);
    ScaledBack(h, m, lg);
    CutoffOfPow2(m);
  }

  lemma ShrunkTo(n: nat, k: nat, lg: nat, m: nat)
    requires n == 4 * Pow2(k) && m + lg == k && m >= 1
    ensures n / Pow2(lg) == 4 * Pow2(m) >= MIN_TABLE_SIZE
  {
    assert n == Pow2(k + 2) && 4 * Pow2(m) == Pow2(m + 2);
    ShiftedPow2(k + 2, lg);
    Pow2Grows(1, m);
  }

  lemma ProductGrows(a: nat, b: nat, p: nat, q: nat)
    requires a <= b && p <= q
    ensures a * p <= b * q
  {
  }

  lemma ReductionIsBetween(h: nat, k: nat, lg: nat, newSize: nat)
    requires h == Hypothetical(newSize) && newSize >= 4 && k >= 2 && 4 * newSize <= 3 * Pow2(k)
    requires lg >= 1 && h * Pow2(lg) >= 3 * Pow2(k) && (lg > 1 ==> h * Pow2(lg - 1) < 3 * Pow2(k))
    ensures 2 <= lg < k
  {
    assert lg == 1 ==> h * Pow2(lg) == 2 * h;
    if lg >= k {
      Pow2Grows(k - 1, lg - 1);
      ProductGrows(6, h, Pow2(k - 1), Pow2(lg - 1));
    }
  }

  lemma SmallShrinksToLeast(n: nat, newSize: nat)
    requires IsTableSize(n) && Shrinks(n, newSize) && newSize <= 3
    ensures Shrunk(n, newSize) == MIN_TABLE_SIZE
  {
    var k := TableSizeIs(n);
    var h := Hypothetical(newSize);
    var lg := ReductionFrom(h, 3 * Pow2(k), 1);
    ReductionIsLeast(h, 3 * Pow2(k), 1);
    if k >= lg + 1 {
      Pow2Grows(lg + 1, k);
      ProductGrows(h, 4, Pow2(lg), Pow2(lg));
    }
    ShiftedPow2(k + 2, lg);
    if lg <= k + 2 {
      Pow2Grows(k + 2 - lg, 3);
    }
    assert n == Pow2(k + 2) && Pow2(3) == 8;
  }

  /** No limit of any table lies above `low` and up to `high`. */
  ghost predicate NoLimitBetween(low: nat, high: nat) {
    forall m: nat :: !(low < 3 * Pow2(m) <= high)
  }

  /**
    How soon a table that an insertion shrank, and that now holds `newSize` elements, grows again.
    The insertion number `more` after that one doubles it, or it is at its limit at once if `more`
    is 0, exactly if no number 3 * 2^m lies above `newSize + more` and up to the hypothetical
    size: the old number of buckets plays no part.
   */
  lemma FullAgainIff(n: nat, newSize: nat, more: nat)
    requires IsTableSize(n) && Shrinks(n, newSize) && newSize >= 4
    ensures newSize + more >= HiCutoff(Shrunk(n, newSize))
            <==> NoLimitBetween(newSize + more, Hypothetical(newSize))
  {
    var m := ShrunkLimit(n, newSize);
    if newSize + more >= 3 * Pow2(m) {
      forall i: nat | 3 * Pow2(i) <= Hypothetical(newSize)
        ensures 3 * Pow2(i) <= newSize + more
      {
        if i > m {
          Pow2Grows(m + 1, i);
        } else {
          Pow2Grows(i, m);
        }
      }
    }
  }

  /**
    The source shrinks by an estimate that is to make sure that a few insertions do not make the
    table grow again: the hypothetical size should fit.  It does exactly if there are at most three
    elements.
   */
  lemma ShrinkLeavesRoomIff(n: nat, newSize: nat)
    requires IsTableSize(n) && Shrinks(n, newSize)
    ensures Hypothetical(newSize) < HiCutoff(Shrunk(n, newSize)) <==> newSize <= 3
  {
    if newSize <= 3 {
      SmallShrinksToLeast(n, newSize);
    } else {
      var m := ShrunkLimit(n, newSize);
    }
  }

  /**
    The number of elements reaches three quarters of the buckets after an insertion exactly when
    the insertion shrank the table too far, or one doubling was not enough, or none is left.
   */
  lemma OverloadedIff(n: nat, newSize: nat)
    requires IsTableSize(n)
    ensures newSize >= HiCutoff(TargetSize(n, newSize)) <==>
            || (newSize >= HiCutoff(n) && (n > MAX_SIZE / 2 || newSize >= 2 * HiCutoff(n)))
            || (Shrinks(n, newSize) && newSize >= 4 && NoLimitBetween(newSize, Hypothetical(newSize)))
  {
    var k := TableSizeIs(n);
    if newSize >= HiCutoff(n) {
      CutoffOfPow2(k + 1);
    } else if Shrinks(n, newSize) {
      if newSize <= 3 {
        SmallShrinksToLeast(n, newSize);
      } else {
        FullAgainIff(n, newSize, 0);
      }
    }
  }

  /** From `n` buckets to `r` when `size` elements are to fit: the limits in plain numbers. */
  ghost predicate RebuiltBy(n: nat, size: nat, r: nat) {
    && (r == 2 * n <==> 4 * size >= 3 * n && n <= 0x0800_0000_0000_0000)
    && (r < n <==> 16 * size <= 3 * n && n > 8)
    && (r == n || r == 2 * n || (r < n && IsTableSize(r) && 5 * size + 4 < 6 * r && (r > 8 ==> 3 * r <= 5 * size + 4)))
  }

  /**
    When an insertion rebuilds the table and in what size, from the two numbers alone: with three
    quarters of the buckets in use it doubles, and with three sixteenths or fewer it shrinks to the
    least table size that the load allows afterwards.
   */
  lemma TargetIs(n: nat, newSize: nat)
    requires IsTableSize(n)
    ensures RebuiltBy(n, newSize, TargetSize(n, newSize))
  {
    var k := TableSizeIs(n);
    TargetIsTableSize(n, newSize);
    Pow2Grows(1, k);
    if Shrinks(n, newSize) {
      if newSize <= 3 {
        SmallShrinksToLeast(n, newSize);
      } else {
        var m := ShrunkLimit(n, newSize);
        ShrunkIsLess(n, k, newSize);
      }
    }
  }

  lemma LimitsAre(n: nat, newSize: nat, r: nat)
    requires IsTableSize(n) && r == TargetSize(n, newSize)
    ensures r == 2 * n <==> 4 * newSize >= 3 * n && n <= 0x0800_0000_0000_0000
    ensures r < n <==> 16 * newSize <= 3 * n && n > 8
  {
    TargetIs(n, newSize);
  }

  lemma ShrunkIsLess(n: nat, k: nat, newSize: nat)
    requires n == 4 * Pow2(k) && IsTableSize(n) && Shrinks(n, newSize) && newSize >= 4
    ensures Shrunk(n, newSize) < n
  {
    var m := ShrunkLimit(n, newSize);
    CutoffOfPow2(k);
    if m >= k {
      Pow2Grows(k, m);
    }
  }

  /** The load that does hold: less than six elements for every five buckets. */
  predicate LoadOk(n: nat, size: nat) {
    n > MAX_SIZE / 2 || 5 * size + 4 < 6 * n
  }

  lemma LoadStaysOk(n: nat, size: nat)
    requires IsTableSize(n) && LoadOk(n, size)
    ensures LoadOk(TargetSize(n, size + 1), size + 1)
  {
    var k := TableSizeIs(n);
    Pow2Grows(1, k);
    if Shrinks(n, size + 1) {
      if size + 1 <= 3 {
        SmallShrinksToLeast(n, size + 1);
      } else {
        var m := ShrunkLimit(n, size + 1);
      }
    }
  }

  /** No smaller bound would do: in a table of any size but the largest, some insertion reaches it. */
  lemma LoadIsReached(n: nat, size: nat)
    requires IsTableSize(n) && 8 * n <= MAX_SIZE
    requires LoadOk(n, size) && !LoadOk(n, size + 1)
    ensures IsTableSize(8 * n) && LoadOk(8 * n, size - 1) && TargetSize(8 * n, size) == n
  {
    var k := TableSizeIs(n);
    DoubleIsTableSize(n);
    DoubleIsTableSize(2 * n);
    DoubleIsTableSize(4 * n);
    CutoffOfPow2(k + 3);
    Pow2Grows(1, k);
    var m := ShrunkLimit(8 * n, size);
    SameLimit(k, m, Hypothetical(size));
  }

  lemma SameLimit(k: nat, m: nat, h: nat)
    requires 3 * Pow2(k) <= h < 3 * Pow2(k + 1) && 3 * Pow2(m) <= h < 3 * Pow2(m + 1)
    ensures k == m
  {
    if k < m {
      Pow2Grows(k + 1, m);
    } else if m < k {
      Pow2Grows(m + 1, k);
    }
  }

  /**
    With 128 buckets, 18 elements are put into 16 buckets, which are to hold fewer than 12; the
    next insertion doubles them.
   */
  lemma ShrunkTooFar()
    ensures Shrinks(128, 18) && TargetSize(128, 18) == 16 && HiCutoff(16) == 12
    ensures TargetSize(16, 19) == 32
  {
    assert Pow2(1) == 2 && Pow2(2) == 4 && Pow2(3) == 8;
    assert ReductionFrom(23, 96, 3) == 3;
    assert ReductionFrom(23, 96, 2) == 3;
  }
}
