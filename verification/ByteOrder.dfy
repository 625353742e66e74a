/**
  The low-byte-first integer formats: `uintNkorr`, `sintNkorr` and `intNstore` for N = 2, 3,
  4, 5, 6 and 8, and the x86 forms that load and store a whole word.

  The C operators are written out: a cast to an N-bit unsigned type is a remainder, a cast to
  a signed type is two's complement, shifts by k multiply or divide by 2^k.
 */
module ByteOrder {
  import opened Bits

  type byte = x: int | 0 <= x < 256

  function Pow256(n: nat): (p: nat)
    ensures p > 0
  {
    if n == 0 then 1 else 256 * Pow256(n - 1)
  }

  lemma Pow256Values()
    ensures Pow256(1) == 0x100 && Pow256(2) == 0x1_0000 && Pow256(3) == 0x100_0000
    ensures Pow256(4) == 0x1_0000_0000 && Pow256(5) == 0x100_0000_0000
    ensures Pow256(6) == 0x1_0000_0000_0000 && Pow256(8) == 0x1_0000_0000_0000_0000
  {
    assert Pow256(8) == 256 * Pow256(7);
    assert Pow256(6) == 256 * Pow256(5);
    assert Pow256(4) == 256 * Pow256(3);
    assert Pow256(2) == 256 * Pow256(1);
  }

  // ----- casts

  function U8(x: nat): byte { x % 0x100 }
  function U16(x: nat): nat { x % 0x1_0000 }
  function U32(x: nat): nat { x % 0x1_0000_0000 }
  function U64(x: nat): nat { x % 0x1_0000_0000_0000_0000 }

  /** Two's complement in `n` bytes. */
  function Signed(x: nat, n: nat): int {
    var u := x % Pow256(n);
    if 2 * u < Pow256(n) then u else u - Pow256(n)
  }

  // ----- the reference: one number, n bytes, low byte first

  function Decoded(a: seq<byte>, at: nat, n: nat): nat
    requires at + n <= |a|
    decreases n
  {
    if n == 0 then 0 else a[at] + 256 * Decoded(a, at + 1, n - 1)
  }

  function Digits(v: nat, n: nat): (d: seq<byte>)
    ensures |d| == n
  {
    if n == 0 then [] else [v % 256] + Digits(v / 256, n - 1)
  }

  /** The buffer with the `n` low bytes of `v` at `at` and everything else as it was. */
  function Stored(a: seq<byte>, at: nat, v: nat, n: nat): (s: seq<byte>)
    requires at + n <= |a|
    ensures |s| == |a|
  {
    a[..at] + Digits(v, n) + a[at + n..]
  }

  lemma {:induction false} DecodedBound(a: seq<byte>, at: nat, n: nat)
    requires at + n <= |a|
    ensures Decoded(a, at, n) < Pow256(n)
    decreases n
  {
    if n > 0 {
      DecodedBound(a, at + 1, n - 1);
    }
  }

  lemma {:induction false} DecodedLocal(a: seq<byte>, i: nat, b: seq<byte>, j: nat, n: nat)
    requires i + n <= |a| && j + n <= |b| && a[i..i + n] == b[j..j + n]
    ensures Decoded(a, i, n) == Decoded(b, j, n)
    decreases n
  {
    if n > 0 {
      assert a[i] == a[i..i + n][0] == b[j..j + n][0] == b[j];
      assert a[i + 1..i + n] == a[i..i + n][1..] == b[j..j + n][1..] == b[j + 1..j + n];
      DecodedLocal(a, i + 1, b, j + 1, n - 1);
    }
  }

  lemma ModByByte(v: nat, m: nat)
    requires m > 0
    ensures v % (256 * m) == v % 256 + 256 * ((v / 256) % m)
  {
    var q, r := (v / 256) / m, (v / 256) % m;
    assert v == q * (256 * m) + (256 * r + v % 256) by {
      assert v == 256 * (q * m + r) + v % 256;
    }
    ModIsRemainder(v, 256 * m, q, 256 * r + v % 256);
  }

  lemma {:induction false} DecodedDigits(v: nat, n: nat)
    ensures Decoded(Digits(v, n), 0, n) == v % Pow256(n)
    decreases n
  {
    if n > 0 {
      var d := Digits(v, n);
      DecodedDigits(v / 256, n - 1);
      assert d[1..1 + (n - 1)] == Digits(v / 256, n - 1)[0..n - 1];
      DecodedLocal(d, 1, Digits(v / 256, n - 1), 0, n - 1);
      ModByByte(v, Pow256(n - 1));
    }
  }

  lemma LowByte(b: byte, rest: nat)
    ensures (b + 256 * rest) % 256 == b && (b + 256 * rest) / 256 == rest
  {
  }

  lemma {:induction false} DigitsDecoded(a: seq<byte>, at: nat, n: nat)
    requires at + n <= |a|
    ensures Digits(Decoded(a, at, n), n) == a[at..at + n]
    decreases n
  {
    if n > 0 {
      var rest := Decoded(a, at + 1, n - 1);
      DigitsDecoded(a, at + 1, n - 1);
      LowByte(a[at], rest);
      assert a[at..at + n] == [a[at]] + a[at + 1..at + n];
    }
  }

  // ----- round trips

  /** Reading back a stored number gives it modulo 2^(8n). */
  lemma StoreThenDecode(a: seq<byte>, at: nat, v: nat, n: nat)
    requires at + n <= |a|
    ensures Decoded(Stored(a, at, v, n), at, n) == v % Pow256(n)
  {
    var s := Stored(a, at, v, n);
    assert s[at..at + n] == Digits(v, n)[0..n];
    DecodedLocal(s, at, Digits(v, n), 0, n);
    DecodedDigits(v, n);
  }

  /** Storing what was read changes nothing. */
  lemma DecodeThenStore(a: seq<byte>, at: nat, n: nat)
    requires at + n <= |a|
    ensures Stored(a, at, Decoded(a, at, n), n) == a
  {
    DigitsDecoded(a, at, n);
    assert a == a[..at] + a[at..at + n] + a[at + n..];
  }

  /** Equal numbers come from equal bytes. */
  lemma DecodedIsInjective(a: seq<byte>, i: nat, b: seq<byte>, j: nat, n: nat)
    requires i + n <= |a| && j + n <= |b|
    ensures Decoded(a, i, n) == Decoded(b, j, n) <==> a[i..i + n] == b[j..j + n]
  {
    DigitsDecoded(a, i, n);
    DigitsDecoded(b, j, n);
    if a[i..i + n] == b[j..j + n] {
      DecodedLocal(a, i, b, j, n);
    }
  }

  /** A signed number in range survives being stored as unsigned and read as signed. */
  lemma SignedRoundTrip(a: seq<byte>, at: nat, x: int, wide: nat, n: nat)
    requires at + n <= |a| && 0 < n <= wide
    requires 0 <= 2 * x + Pow256(n) && 2 * x < Pow256(n)
    ensures Signed(Decoded(Stored(a, at, x % Pow256(wide), n), at, n), n) == x
  {
    var m := Pow256(n);
    StoreThenDecode(a, at, x % Pow256(wide), n);
    NestedMod(x, n, wide);
    ModIsRemainder(x % m, m, 0, x % m);
    ModIsRemainder(x, m, if x < 0 then -1 else 0, if x < 0 then x + m else x);
  }

  lemma {:induction false} Pow256Divides(n: nat, wide: nat)
    requires n <= wide
    ensures Pow256(wide) == Pow256(wide - n) * Pow256(n)
  {
    if n > 0 {
      Pow256Divides(n - 1, wide - 1);
      TimesByte(Pow256(wide - n), Pow256(n - 1));
    }
  }

  lemma TimesByte(a: nat, b: nat)
    ensures a * (256 * b) == 256 * (a * b)
  {
  }

  lemma NestedMod(x: int, n: nat, wide: nat)
    requires n <= wide
    ensures (x % Pow256(wide)) % Pow256(n) == x % Pow256(n)
  {
    Pow256Divides(n, wide);
    ModOfMultiple(x, Pow256(wide - n), Pow256(n));
  }

  lemma ModOfMultiple(x: int, c: nat, m: nat)
    requires c > 0 && m > 0 && c * m > 0
    ensures (x % (c * m)) % m == x % m
  {
    var w := c * m;
    var q, y := x / w, x % w;
    assert x == w * q + y;
    Regrouped(q, c, m, y / m);
    ModIsRemainder(x, m, q * c + y / m, y % m);
  }

  lemma Regrouped(q: int, c: nat, m: nat, z: int)
    ensures (q * c + z) * m == (c * m) * q + z * m
  {
  }

  // ----- the readers, as written for byte addressing
  //
  // The source spells the 32-bit sum out again inside the 5-, 6- and 8-byte readers.

  /** A byte as an unsigned number of the width the expression needs. */
  function At(a: seq<byte>, i: nat): nat
    requires i < |a|
  {
    a[i]
  }

  function Uint2Korr(a: seq<byte>, p: nat): (r: nat)
    requires p + 2 <= |a|
    ensures r == Decoded(a, p, 2)
  {
    Unfold(a, p, 2);
    U16(At(a, p) + At(a, p + 1) * 0x100)
  }

  function Sint2Korr(a: seq<byte>, p: nat): (r: int)
    requires p + 2 <= |a|
    ensures r == Signed(Decoded(a, p, 2), 2)
  {
    Unfold(a, p, 2);
    Signed(At(a, p) + At(a, p + 1) * 0x100, 2)
  }

  function Uint3Korr(a: seq<byte>, p: nat): (r: nat)
    requires p + 3 <= |a|
    ensures r == Decoded(a, p, 3)
  {
    Unfold(a, p, 3);
    U32(At(a, p) + At(a, p + 1) * 0x100 + At(a, p + 2) * 0x1_0000)
  }

  function OredBytes(x0: nat, x1: nat, x2: nat): (r: nat)
    requires x0 < 256 && x1 < 256 && x2 < 256
    ensures r == x0 + x1 * 0x100 + x2 * 0x1_0000
  {
    OredLowBytes(x0, x1, x2);
    Or(Or(U32(x2 * 0x1_0000), U32(x1 * 0x100)), x0)
  }

  function OredWithSign(x0: nat, x1: nat, x2: nat): (r: nat)
    requires x0 < 256 && x1 < 256 && x2 < 256
    ensures r == x0 + x1 * 0x100 + x2 * 0x1_0000 + 255 * 0x100_0000
  {
    OredSignBytes(x0, x1, x2);
    Or(Or(Or(U32(255 * 0x100_0000), U32(x2 * 0x1_0000)), U32(x1 * 0x100)), x0)
  }

  /** The bytes are or-ed together, with eight more sign bits when bit 7 of the last is set. */
  function Sint3Korr(a: seq<byte>, p: nat): (r: int)
    requires p + 3 <= |a|
    ensures r == Signed(Decoded(a, p, 3), 3)
  {
    var (x0, x1, x2) := (At(a, p), At(a, p + 1), At(a, p + 2));
    ThreeBytes(a, p);
    SignExtended(Decoded(a, p, 3), x2);
    Signed(if And(x2, 128) != 0 then OredWithSign(x0, x1, x2) else OredBytes(x0, x1, x2), 4)
  }

  function Uint4Korr(a: seq<byte>, p: nat): (r: nat)
    requires p + 4 <= |a|
    ensures r == Decoded(a, p, 4) < 0x1_0000_0000
  {
    Unfold(a, p, 4);
    U32(At(a, p) + At(a, p + 1) * 0x100 + At(a, p + 2) * 0x1_0000 + At(a, p + 3) * 0x100_0000)
  }

  function Sint4Korr(a: seq<byte>, p: nat): (r: int)
    requires p + 4 <= |a|
    ensures r == Signed(Decoded(a, p, 4), 4)
  {
    Unfold(a, p, 4);
    Signed(At(a, p) + At(a, p + 1) * 0x100 + At(a, p + 2) * 0x1_0000 + At(a, p + 3) * 0x100_0000, 4)
  }

  function Uint5Korr(a: seq<byte>, p: nat): (r: nat)
    requires p + 5 <= |a|
    ensures r == Decoded(a, p, 5)
  {
    SplitAfterFour(a, p, 1);
    Unfold(a, p + 4, 1);
    U64(Uint4Korr(a, p) + At(a, p + 4) * 0x1_0000_0000)
  }

  function Uint6Korr(a: seq<byte>, p: nat): (r: nat)
    requires p + 6 <= |a|
    ensures r == Decoded(a, p, 6)
  {
    SplitAfterFour(a, p, 2);
    Unfold(a, p + 4, 2);
    U64(Uint4Korr(a, p) + At(a, p + 4) * 0x1_0000_0000 + At(a, p + 5) * 0x100_0000_0000)
  }

  function Uint8Korr(a: seq<byte>, p: nat): (r: nat)
    requires p + 8 <= |a|
    ensures r == Decoded(a, p, 8)
  {
    SplitAfterFour(a, p, 4);
    TwoWords(Uint4Korr(a, p), Uint4Korr(a, p + 4));
    U64(Uint4Korr(a, p) + U64(Uint4Korr(a, p + 4) * 0x1_0000_0000))
  }

  function Sint8Korr(a: seq<byte>, p: nat): (r: int)
    requires p + 8 <= |a|
    ensures r == Signed(Decoded(a, p, 8), 8)
  {
    Signed(Uint8Korr(a, p), 8)
  }

  lemma Unfold(a: seq<byte>, p: nat, n: nat)
    requires p + n <= |a| && n <= 8
    ensures n >= 1 ==> Decoded(a, p, n) == a[p] + 256 * Decoded(a, p + 1, n - 1)
    ensures n >= 2 ==> Decoded(a, p + 1, n - 1) == a[p + 1] + 256 * Decoded(a, p + 2, n - 2)
    ensures n >= 3 ==> Decoded(a, p + 2, n - 2) == a[p + 2] + 256 * Decoded(a, p + 3, n - 3)
    ensures n >= 4 ==> Decoded(a, p + 3, n - 3) == a[p + 3] + 256 * Decoded(a, p + 4, n - 4)
    ensures n >= 5 ==> Decoded(a, p + 4, n - 4) == a[p + 4] + 256 * Decoded(a, p + 5, n - 5)
    ensures n >= 6 ==> Decoded(a, p + 5, n - 5) == a[p + 5] + 256 * Decoded(a, p + 6, n - 6)
    ensures n >= 7 ==> Decoded(a, p + 6, n - 6) == a[p + 6] + 256 * Decoded(a, p + 7, n - 7)
    ensures n >= 8 ==> Decoded(a, p + 7, n - 7) == a[p + 7] + 256 * Decoded(a, p + 8, n - 8)
    ensures Decoded(a, p + n, 0) == 0
  {
  }

  /** A run of bytes is its low part plus its shifted high part. */
  lemma {:induction false} DecodedSplit(a: seq<byte>, p: nat, m: nat, n: nat)
    requires p + m + n <= |a|
    ensures Decoded(a, p, m + n) == Decoded(a, p, m) + Pow256(m) * Decoded(a, p + m, n)
    decreases m
  {
    if m > 0 {
      DecodedSplit(a, p + 1, m - 1, n);
      ScaledByByte(Pow256(m - 1), Decoded(a, p + m, n));
    }
  }

  lemma ScaledByByte(a: nat, b: nat)
    ensures (256 * a) * b == 256 * (a * b)
  {
  }

  lemma Pow2Values()
    ensures Pow2(7) == 0x80 && Pow2(8) == 0x100 && Pow2(16) == 0x1_0000 && Pow2(24) == 0x100_0000
  {
    assert Pow2(4) == 16;
    assert Pow2(8) == 256;
    assert Pow2(12) == 0x1000;
    assert Pow2(16) == 0x1_0000;
    assert Pow2(20) == 0x10_0000;
  }

  lemma TwoWords(low: nat, high: nat)
    requires low < 0x1_0000_0000 && high < 0x1_0000_0000
    ensures U64(low + U64(high * 0x1_0000_0000)) == low + 0x1_0000_0000 * high
  {
  }

  lemma SplitAfterFour(a: seq<byte>, p: nat, n: nat)
    requires p + 4 + n <= |a|
    ensures Decoded(a, p, 4 + n) == Decoded(a, p, 4) + 0x1_0000_0000 * Decoded(a, p + 4, n)
  {
    DecodedSplit(a, p, 4, n);
    Pow256Values();
  }

  lemma OrAt(a: nat, b: nat, k: nat, p: nat)
    requires Pow2(k) == p && b < p
    ensures Or(a * p, b) == a * p + b
  {
    OrOfDisjointAdds(a, b, k);
  }

  lemma OredLowBytes(x0: nat, x1: nat, x2: nat)
    requires x0 < 256 && x1 < 256 && x2 < 256
    ensures Or(Or(U32(x2 * 0x1_0000), U32(x1 * 0x100)), x0) == x0 + x1 * 0x100 + x2 * 0x1_0000
  {
    Pow2Values();
    NoWrap(x2 * 0x1_0000);
    NoWrap(x1 * 0x100);
    OrAt(x2, x1 * 0x100, 16, 0x1_0000);
    OrAt(x2 * 0x100 + x1, x0, 8, 0x100);
  }

  lemma NoWrap(x: nat)
    requires x < 0x1_0000_0000
    ensures U32(x) == x
  {
  }

  lemma OredSignBytes(x0: nat, x1: nat, x2: nat)
    requires x0 < 256 && x1 < 256 && x2 < 256
    ensures Or(Or(Or(U32(255 * 0x100_0000), U32(x2 * 0x1_0000)), U32(x1 * 0x100)), x0)
            == x0 + x1 * 0x100 + x2 * 0x1_0000 + 255 * 0x100_0000
  {
    Pow2Values();
    NoWrap(255 * 0x100_0000);
    NoWrap(x2 * 0x1_0000);
    NoWrap(x1 * 0x100);
    OrAt(255, x2 * 0x1_0000, 24, 0x100_0000);
    var y := 255 * 0x100 + x2;
    OrAt(y, x1 * 0x100, 16, 0x1_0000);
    OrAt(y * 0x100 + x1, x0, 8, 0x100);
  }

  lemma TestBit7(x: nat)
    requires x < 256
    ensures And(x, 128) != 0 <==> x >= 128
  {
    Pow2Values();
    AndWithOneBit(x, 7);
    BitOf(x);
  }

  lemma BitOf(x: nat)
    requires x < 256
    ensures (x / 128) % 2 == if x >= 128 then 1 else 0
  {
  }

  lemma ThreeBytes(a: seq<byte>, p: nat)
    requires p + 3 <= |a|
    ensures Decoded(a, p, 3) == At(a, p) + At(a, p + 1) * 0x100 + At(a, p + 2) * 0x1_0000 < 0x100_0000
    ensures Decoded(a, p, 3) / 0x1_0000 == At(a, p + 2)
  {
    Unfold(a, p, 3);
  }

  lemma SignExtended(u: nat, high: nat)
    requires u < 0x100_0000 && high == u / 0x1_0000
    ensures Signed(if And(high, 128) != 0 then u + 255 * 0x100_0000 else u, 4) == Signed(u, 3)
  {
    Pow256Values();
    TestBit7(high);
    WideSigned(u);
  }

  lemma WideSigned(u: nat)
    requires u < 0x100_0000
    ensures u / 0x1_0000 >= 128 <==> 2 * u >= 0x100_0000
    ensures u % 0x100_0000 == u == u % 0x1_0000_0000
    ensures (u + 255 * 0x100_0000) % 0x1_0000_0000 == u + 255 * 0x100_0000
  {
  }

  // ----- the writers, as written for byte addressing

  lemma {:induction false} DigitAt(v: nat, n: nat, k: nat)
    requires k < n
    ensures Digits(v, n)[k] == (v / Pow256(k)) % 256
    decreases n
  {
    if k > 0 {
      DigitAt(v / 256, n - 1, k - 1);
      DivByByte(v, Pow256(k - 1));
    }
  }

  lemma DivByByte(v: nat, m: nat)
    requires m > 0
    ensures (v / 256) / m == v / (256 * m)
  {
    var q, r := (v / 256) / m, (v / 256) % m;
    assert v == q * (256 * m) + (256 * r + v % 256) by {
      assert v == 256 * (q * m + r) + v % 256;
    }
    ModIsRemainder(v, 256 * m, q, 256 * r + v % 256);
  }

  /** The only bytes that change are the `n` at `p`. */
  lemma StoredAt(a: seq<byte>, p: nat, v: nat, n: nat, i: nat)
    requires p + n <= |a| && i < |a|
    ensures Stored(a, p, v, n)[i] == if p <= i < p + n then (v / Pow256(i - p)) % 256 else a[i]
  {
    if p <= i < p + n {
      DigitAt(v, n, i - p);
    }
  }

  function Low(v: nat, n: nat): nat {
    v % Pow256(n)
  }

  function High(v: nat, n: nat): nat {
    QuotientIsNat(v, Pow256(n));
    v / Pow256(n)
  }

  lemma QuotientIsNat(v: nat, m: nat)
    requires m > 0
    ensures v / m >= 0
  {
    var q := v / m;
    assert q * m + v % m == v;
    MultipleIsFar(q, m);
  }

  lemma LowHighByByte(v: nat, n: nat)
    requires n > 0
    ensures Low(v, n) % 256 == v % 256 && Low(v, n) / 256 == Low(v / 256, n - 1)
    ensures High(v, n) == High(v / 256, n - 1)
  {
    ModByByte(v, Pow256(n - 1));
    DivByByte(v, Pow256(n - 1));
    ByteAndRest(Low(v, n), v % 256, Low(v / 256, n - 1));
  }

  lemma ByteAndRest(x: nat, low: nat, rest: nat)
    requires x == low + 256 * rest && low < 256
    ensures x % 256 == low && x / 256 == rest
  {
  }

  lemma {:induction false} DigitsSplit(v: nat, m: nat, n: nat)
    ensures Digits(v, m + n) == Digits(Low(v, m), m) + Digits(High(v, m), n)
    decreases m
  {
    if m > 0 {
      DigitsSplit(v / 256, m - 1, n);
      LowHighByByte(v, m);
    }
  }

  method Int2Store(t: array<byte>, p: nat, v: nat)
    requires p + 2 <= t.Length && v < 0x1_0000
    modifies t
    ensures t[..] == Stored(old(t[..]), p, v, 2)
  {
    ghost var was := t[..];
    var defTemp := v;
    t[p] := U8(defTemp);
    t[p + 1] := U8(defTemp / 0x100);
    StoredIs(was, p, v, 2, t[..]);
  }

  method Int3Store(t: array<byte>, p: nat, v: nat)
    requires p + 3 <= t.Length && v < 0x1_0000_0000
    modifies t
    ensures t[..] == Stored(old(t[..]), p, v, 3)
  {
    ghost var was := t[..];
    t[p] := U8(v);
    t[p + 1] := U8(v / 0x100);
    t[p + 2] := U8(v / 0x1_0000);
    StoredIs(was, p, v, 3, t[..]);
  }

  method Int4Store(t: array<byte>, p: nat, v: nat)
    requires p + 4 <= t.Length && v < 0x1_0000_0000
    modifies t
    ensures t[..] == Stored(old(t[..]), p, v, 4)
  {
    ghost var was := t[..];
    t[p] := U8(v);
    t[p + 1] := U8(v / 0x100);
    t[p + 2] := U8(v / 0x1_0000);
    t[p + 3] := U8(v / 0x100_0000);
    StoredIs(was, p, v, 4, t[..]);
  }

  method Int5Store(t: array<byte>, p: nat, v: nat)
    requires p + 5 <= t.Length && v < 0x1_0000_0000_0000_0000
    modifies t
    ensures t[..] == Stored(old(t[..]), p, v, 5)
  {
    ghost var was := t[..];
    t[p] := U8(v);
    t[p + 1] := U8(v / 0x100);
    t[p + 2] := U8(v / 0x1_0000);
    t[p + 3] := U8(v / 0x100_0000);
    t[p + 4] := U8(v / 0x1_0000_0000);
    StoredIs(was, p, v, 5, t[..]);
  }

  method Int6Store(t: array<byte>, p: nat, v: nat)
    requires p + 6 <= t.Length && v < 0x1_0000_0000_0000_0000
    modifies t
    ensures t[..] == Stored(old(t[..]), p, v, 6)
  {
    ghost var was := t[..];
    t[p] := U8(v);
    t[p + 1] := U8(v / 0x100);
    t[p + 2] := U8(v / 0x1_0000);
    t[p + 3] := U8(v / 0x100_0000);
    t[p + 4] := U8(v / 0x1_0000_0000);
    t[p + 5] := U8(v / 0x100_0000_0000);
    StoredIs(was, p, v, 6, t[..]);
  }

  method Int8Store(t: array<byte>, p: nat, v: nat)
    requires p + 8 <= t.Length && v < 0x1_0000_0000_0000_0000
    modifies t
    ensures t[..] == Stored(old(t[..]), p, v, 8)
  {
    var defTemp, defTemp2 := U32(v), U32(v / 0x1_0000_0000);
    TwoHalves(t[..], p, v);
    Int4Store(t, p, defTemp);
    Int4Store(t, p + 4, defTemp2);
  }

  lemma TwoHalves(a: seq<byte>, p: nat, v: nat)
    requires p + 8 <= |a| && v < 0x1_0000_0000_0000_0000
    ensures Stored(Stored(a, p, U32(v), 4), p + 4, U32(v / 0x1_0000_0000), 4) == Stored(a, p, v, 8)
  {
    HalvesOfDigits(v);
    StoredTwice(a, p, Digits(U32(v), 4), Digits(U32(v / 0x1_0000_0000), 4));
  }

  lemma HalvesOfDigits(v: nat)
    requires v < 0x1_0000_0000_0000_0000
    ensures Digits(v, 8) == Digits(U32(v), 4) + Digits(U32(v / 0x1_0000_0000), 4)
  {
    Pow256Values();
    DigitsSplit(v, 4, 4);
    assert Low(v, 4) == U32(v) && High(v, 4) == U32(v / 0x1_0000_0000);
  }

  lemma StoredTwice(a: seq<byte>, p: nat, d: seq<byte>, e: seq<byte>)
    requires p + |d| + |e| <= |a|
    ensures var q := p + |d|;
            var b := a[..p] + d + a[q..];
            b[..q] + e + b[q + |e|..] == a[..p] + (d + e) + a[q + |e|..]
  {
    var b := a[..p] + d + a[p + |d|..];
    assert b[..p + |d|] == a[..p] + d;
    assert b[p + |d| + |e|..] == a[p + |d| + |e|..];
  }

  lemma StoredIs(was: seq<byte>, p: nat, v: nat, n: nat, now: seq<byte>)
    requires p + n <= |was| == |now|
    requires forall i :: 0 <= i < |was| && !(p <= i < p + n) ==> now[i] == was[i]
    requires n <= 6
    requires n > 0 ==> now[p] == v % 0x100
    requires n > 1 ==> now[p + 1] == (v / 0x100) % 0x100
    requires n > 2 ==> now[p + 2] == (v / 0x1_0000) % 0x100
    requires n > 3 ==> now[p + 3] == (v / 0x100_0000) % 0x100
    requires n > 4 ==> now[p + 4] == (v / 0x1_0000_0000) % 0x100
    requires n > 5 ==> now[p + 5] == (v / 0x100_0000_0000) % 0x100
    ensures now == Stored(was, p, v, n)
  {
    Pow256Values();
    assert Pow256(0) == 1;
    forall i | 0 <= i < |was|
      ensures now[i] == Stored(was, p, v, n)[i]
    {
      StoredAt(was, p, v, n, i);
    }
  }

  // ----- the x86 forms: one word-sized access to a little-endian memory

  /** Little-endian memory: byte k of the `n`-byte word at `p` is bits 8k..8k+7 of its value. */
  ghost predicate HoldsWord(a: seq<byte>, p: nat, n: nat, v: nat)
    requires p + n <= |a|
  {
    v < Pow256(n) && forall k :: 0 <= k < n ==> a[p + k] == (v / Pow256(k)) % 256
  }

  /** The word loaded is the number the byte-by-byte reader computes. */
  lemma X86LoadIsGeneric(a: seq<byte>, p: nat, n: nat, v: nat)
    requires p + n <= |a|
    ensures HoldsWord(a, p, n, v) <==> v == Decoded(a, p, n)
  {
    if HoldsWord(a, p, n, v) {
      forall k | 0 <= k < n
        ensures Digits(v, n)[k] == a[p..p + n][k]
      {
        DigitAt(v, n, k);
      }
      assert Digits(v, n) == a[p..p + n];
      DecodedDigits(v, n);
      DecodedLocal(Digits(v, n), 0, a, p, n);
      ModIsRemainder(v, Pow256(n), 0, v);
    }
    var d := Decoded(a, p, n);
    DecodedBound(a, p, n);
    DigitsDecoded(a, p, n);
    forall k | 0 <= k < n
      ensures a[p + k] == (d / Pow256(k)) % 256
    {
      DigitAt(d, n, k);
      assert a[p..p + n][k] == a[p + k];
    }
  }

  /** Loaded as unsigned or as signed words, little-endian memory gives what the generic readers give. */
  lemma X86ReadersAreGeneric(a: seq<byte>, p: nat, n: nat, v: nat)
    requires n in {2, 4, 8} && p + n <= |a| && HoldsWord(a, p, n, v)
    ensures n == 2 ==> v == Uint2Korr(a, p) && Signed(v, 2) == Sint2Korr(a, p)
    ensures n == 4 ==> v == Uint4Korr(a, p) && Signed(v, 4) == Sint4Korr(a, p)
    ensures n == 8 ==> v == Uint8Korr(a, p) && Signed(v, 8) == Sint8Korr(a, p)
  {
    X86LoadIsGeneric(a, p, n, v);
  }

  /** Storing a word leaves the memory the byte-by-byte writer leaves. */
  lemma X86StoreIsGeneric(a: seq<byte>, b: seq<byte>, p: nat, n: nat, v: nat)
    requires p + n <= |a| == |b| && v < Pow256(n)
    ensures b == Stored(a, p, v, n) <==>
            HoldsWord(b, p, n, v) && forall i :: 0 <= i < |a| && !(p <= i < p + n) ==> b[i] == a[i]
  {
    var s := Stored(a, p, v, n);
    forall i | 0 <= i < |a|
      ensures s[i] == if p <= i < p + n then (v / Pow256(i - p)) % 256 else a[i]
    {
      StoredAt(a, p, v, n, i);
    }
    if HoldsWord(b, p, n, v) && forall i :: 0 <= i < |a| && !(p <= i < p + n) ==> b[i] == a[i] {
      forall i | 0 <= i < |a|
        ensures b[i] == s[i]
      {
        assert p <= i < p + n ==> b[p + (i - p)] == (v / Pow256(i - p)) % 256;
      }
    }
    if b == s {
      forall k | 0 <= k < n
        ensures b[p + k] == (v / Pow256(k)) % 256
      {
        assert s[p + k] == (v / Pow256(p + k - p)) % 256;
      }
    }
  }

  // ----- the promise of the formats

  /** Every unsigned reader inverts its writer, up to the width it stores. */
  lemma UnsignedFormatsRoundTrip(a: seq<byte>, p: nat, v: nat)
    requires p + 8 <= |a|
    ensures Uint2Korr(Stored(a, p, v, 2), p) == v % 0x1_0000
    ensures Uint3Korr(Stored(a, p, v, 3), p) == v % 0x100_0000
    ensures Uint4Korr(Stored(a, p, v, 4), p) == v % 0x1_0000_0000
    ensures Uint5Korr(Stored(a, p, v, 5), p) == v % 0x100_0000_0000
    ensures Uint6Korr(Stored(a, p, v, 6), p) == v % 0x1_0000_0000_0000
    ensures Uint8Korr(Stored(a, p, v, 8), p) == v % 0x1_0000_0000_0000_0000
  {
    Pow256Values();
    StoreThenDecode(a, p, v, 2);
    StoreThenDecode(a, p, v, 3);
    StoreThenDecode(a, p, v, 4);
    StoreThenDecode(a, p, v, 5);
    StoreThenDecode(a, p, v, 6);
    StoreThenDecode(a, p, v, 8);
  }

  /**
    Every signed reader recovers a number in its range, negative ones included, from the bytes
    of its conversion to the writer's unsigned parameter.
   */
  lemma SignedFormatsRoundTrip(a: seq<byte>, p: nat, x: int)
    requires p + 8 <= |a|
    ensures -0x8000 <= x < 0x8000 ==> Sint2Korr(Stored(a, p, x % 0x1_0000, 2), p) == x
    ensures -0x80_0000 <= x < 0x80_0000 ==> Sint3Korr(Stored(a, p, x % 0x1_0000_0000, 3), p) == x
    ensures -0x8000_0000 <= x < 0x8000_0000 ==> Sint4Korr(Stored(a, p, x % 0x1_0000_0000, 4), p) == x
    ensures -0x8000_0000_0000_0000 <= x < 0x8000_0000_0000_0000 ==>
              Sint8Korr(Stored(a, p, x % 0x1_0000_0000_0000_0000, 8), p) == x
  {
    Pow256Values();
    if -0x8000 <= x < 0x8000 {
      SignedRoundTrip(a, p, x, 2, 2);
    }
    if -0x80_0000 <= x < 0x80_0000 {
      SignedRoundTrip(a, p, x, 4, 3);
    }
    if -0x8000_0000 <= x < 0x8000_0000 {
      SignedRoundTrip(a, p, x, 4, 4);
    }
    if -0x8000_0000_0000_0000 <= x < 0x8000_0000_0000_0000 {
      SignedRoundTrip(a, p, x, 8, 8);
    }
  }
}
