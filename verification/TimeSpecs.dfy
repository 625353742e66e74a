/**
  Absolute timeouts: `set_timespec_nsec`, `set_timespec`, `cmp_timespec`, `diff_timespec` and
  the Windows conversion `get_milliseconds`.

  The clock, `my_getsystime()` or `GetSystemTimeAsFileTime()`, counts units of 100 ns and is a
  parameter.  64-bit unsigned arithmetic wraps.
 */
module TimeSpecs {
  const TWO32: nat := 0x1_0000_0000
  const TWO64: nat := 0x1_0000_0000_0000_0000
  const INT_MAX32: nat := 0x7FFF_FFFF
  const UINT_MAX: nat := 0xFFFF_FFFF
  const INFINITE: nat := 0xFFFF_FFFF
  const BILLION: nat := 1_000_000_000

  function Min(a: int, b: int): int {
    if a < b then a else b
  }

  function Max(a: int, b: int): int {
    if a < b then b else a
  }

  /** C division truncates towards zero. */
  function Quotient(a: int, b: int): int
    requires b > 0
  {
    if a >= 0 then a / b else -(-a / b)
  }

  // ----- struct timespec with seconds and nanoseconds

  class TimeSpec {
    var tvSec: int
    var tvNsec: int

    /** The moment in nanoseconds. */
    ghost function Nanos(): int
      reads this
    {
      tvSec * BILLION + tvNsec
    }

    ghost predicate Normal()
      reads this
    {
      0 <= tvNsec < BILLION
    }

    /** The fields hold the moment, but for seconds beyond a 32-bit time_t, which become its greatest. */
    ghost predicate KeepsMoment(nanos: int, narrow: bool)
      reads this
    {
      && tvNsec == nanos % 1_000_000_000
      && tvSec == if narrow && nanos / 1_000_000_000 > 2_147_483_647 then 2_147_483_647 else nanos / 1_000_000_000
    }

    /** `narrow` is a 32-bit time_t, whose seconds are capped. */
    method SetNsec(clock: nat, nsec: nat, narrow: bool)
      requires clock < TWO64 && nsec < TWO64
      modifies this
      ensures Normal()
      ensures clock + nsec / 100 < TWO64 && (narrow ==> (clock + nsec / 100) / 10_000_000 <= INT_MAX32)
              <==> Nanos() == 100 * clock + nsec
      ensures Nanos() <= 100 * clock + nsec
      ensures 0 <= tvSec && (narrow ==> tvSec <= 2_147_483_647)
      ensures KeepsMoment(100 * clock + nsec - (if clock + nsec / 100 < TWO64 then 0 else 100 * TWO64), narrow)
    {
      var now := (clock + nsec / 100) % TWO64;
      var sec := now / 10_000_000;
      if narrow {
        sec := Min(sec, INT_MAX32);
      }
      tvSec := sec;
      tvNsec := (now % 10_000_000) * 100 + nsec % 100;
    }

    /** Seconds are converted with a wrapping multiplication. */
    method SetSeconds(clock: nat, sec: nat, narrow: bool)
      requires clock < TWO64 && sec < TWO64
      modifies this
      ensures Normal()
      ensures sec <= 18_446_744_073 && clock + sec * 10_000_000 < TWO64
              && (narrow ==> (clock + sec * 10_000_000) / 10_000_000 <= INT_MAX32)
              <==> Nanos() == 100 * clock + sec * BILLION
      ensures sec <= 18_446_744_073 && clock + sec * 10_000_000 < TWO64 ==>
                KeepsMoment(100 * clock + sec * 1_000_000_000, narrow)
    {
      ScaledSeconds(sec);
      SetNsec(clock, sec * BILLION % TWO64, narrow);
    }
  }

  function Sign(x: int): int {
    if x > 0 then 1 else if x < 0 then -1 else 0
  }

  /** On normal values the comparison has the sign of the exact difference. */
  method CmpTimespec(ts1: TimeSpec, ts2: TimeSpec) returns (r: int)
    ensures ts1.Normal() && ts2.Normal() ==> r == Sign(ts1.Nanos() - ts2.Nanos())
    ensures r == Sign(if ts1.tvSec != ts2.tvSec then ts1.tvSec - ts2.tvSec else ts1.tvNsec - ts2.tvNsec)
  {
    if ts1.tvSec > ts2.tvSec || (ts1.tvSec == ts2.tvSec && ts1.tvNsec > ts2.tvNsec) {
      return 1;
    }
    if ts1.tvSec < ts2.tvSec || (ts1.tvSec == ts2.tvSec && ts1.tvNsec < ts2.tvNsec) {
      return -1;
    }
    return 0;
  }

  /** The difference in nanoseconds modulo 2^64. */
  method DiffTimespec(ts1: TimeSpec, ts2: TimeSpec) returns (d: nat)
    ensures d == (ts1.Nanos() - ts2.Nanos()) % TWO64
    ensures d == ts1.Nanos() - ts2.Nanos() <==> 0 <= ts1.Nanos() - ts2.Nanos() < TWO64
  {
    var seconds := (ts1.tvSec - ts2.tvSec) % TWO64;
    var scaled := seconds * BILLION % TWO64;
    d := ((scaled + ts1.tvNsec) % TWO64 - ts2.tvNsec) % TWO64;
    DiffWraps(ts1.tvSec - ts2.tvSec, ts1.tvNsec, ts2.tvNsec);
  }

  lemma ScaledSeconds(sec: nat)
    requires sec < TWO64
    ensures sec <= 18_446_744_073 ==> sec * BILLION % TWO64 == sec * BILLION
    ensures sec <= 18_446_744_073 ==> sec * BILLION / 100 == sec * 10_000_000
    ensures sec > 18_446_744_073 ==> sec * BILLION % TWO64 < sec * BILLION
  {
  }

  lemma ModShift(x: int, k: int)
    ensures (x + k * TWO64) % TWO64 == x % TWO64
  {
  }

  lemma DiffWraps(s: int, n1: int, n2: int)
    ensures ((s % TWO64 * BILLION % TWO64 + n1) % TWO64 - n2) % TWO64 == (s * BILLION + n1 - n2) % TWO64
  {
    var a := s % TWO64 * BILLION;
    var b := a % TWO64 + n1;
    ModShift(b % TWO64 - n2, b / TWO64);
    assert b - n2 == b % TWO64 - n2 + b / TWO64 * TWO64;
    ModShift(b - n2, a / TWO64);
    assert a + n1 - n2 == b - n2 + a / TWO64 * TWO64;
    var k := s / TWO64 * BILLION;
    ModShift(a + n1 - n2, k);
    assert s * BILLION == a + k * TWO64;
  }

  // ----- get_milliseconds, with seconds and nanoseconds

  /** The whole milliseconds of a moment in nanoseconds, and of the clock. */
  function MillisOf(nanos: int): int {
    nanos / 1_000_000
  }

  /** The milliseconds from the clock to the deadline; negative once it has passed. */
  ghost function MillisLeft(abstime: TimeSpec, clock: nat): int
    reads abstime
  {
    MillisOf(abstime.Nanos()) - MillisOf(100 * clock)
  }

  /** As an argument of a wait the number is a time only if it does not mean waiting for ever. */
  predicate WaitsFor(wait: nat, nanos: int) {
    wait != INFINITE && -1_000_000 < 1_000_000 * wait - nanos < 1_000_000
  }

  /**
    Before the deadline the wait is within a millisecond of the time left exactly when the
    milliseconds left fit 32 bits and are not all ones.  Once the millisecond clock has reached
    it there is no wait exactly when the deadline lies after 1970 or the cut happens to be zero.
   */
  method GetMilliseconds(abstime: TimeSpec, clock: nat) returns (wait: nat)
    requires abstime.Normal() && -0x8000_0000_0000_0000 <= MillisOf(abstime.Nanos()) < 0x8000_0000_0000_0000
    requires clock < TWO64
    ensures wait <= UINT_MAX
    ensures MillisLeft(abstime, clock) > 0 ==>
              (MillisLeft(abstime, clock) < UINT_MAX <==> WaitsFor(wait, abstime.Nanos() - 100 * clock))
    ensures MillisLeft(abstime, clock) <= 0 ==>
              (wait == 0 <==> abstime.tvSec >= 0 || MillisLeft(abstime, clock) % TWO32 == 0)
    ensures abstime.tvSec < 0 || MillisLeft(abstime, clock) >= 0 ==>
              wait == MillisLeft(abstime, clock) % TWO32
  {
    var future := (abstime.tvSec * 1000 + abstime.tvNsec / 1_000_000) % TWO64;
    var now := clock / 10_000;
    MillisExact(abstime.tvSec, abstime.tvNsec, clock);
    FutureWraps(MillisOf(abstime.Nanos()), now);
    if future < now {
      return 0;
    }
    wait := (future - now) % TWO32;
    if MillisLeft(abstime, clock) > 0 {
      CloseIffItFits(abstime.Nanos(), clock, wait);
    }
  }

  /** The milliseconds as an unsigned 64-bit number, compared with the clock and cut. */
  lemma FutureWraps(millis: int, now: nat)
    requires -0x8000_0000_0000_0000 <= millis < 0x8000_0000_0000_0000 && now <= TWO64 / 10_000
    ensures millis % TWO64 < now <==> 0 <= millis < now
    ensures (millis % TWO64 - now) % TWO32 == (millis - now) % TWO32
    ensures millis == now ==> (millis - now) % TWO32 == 0
  {
    assert millis % TWO64 == if millis < 0 then millis + TWO64 else millis;
    CutToDword(millis - now);
  }

  lemma CloseIffItFits(nanos: int, clock: nat, wait: nat)
    requires wait == (MillisOf(nanos) - MillisOf(100 * clock)) % TWO32
    requires MillisOf(nanos) > MillisOf(100 * clock)
    ensures MillisOf(nanos) - MillisOf(100 * clock) < UINT_MAX <==> WaitsFor(wait, nanos - 100 * clock)
  {
    CutToDword(MillisOf(nanos) - MillisOf(100 * clock));
  }

  lemma MillisExact(sec: int, nsec: nat, clock: nat)
    requires nsec < BILLION
    ensures MillisOf(sec * BILLION + nsec) == sec * 1000 + nsec / 1_000_000
    ensures MillisOf(100 * clock) == clock / 10_000
  {
  }

  lemma CutToDword(x: int)
    ensures 0 <= x < TWO32 <==> x % TWO32 == x
    ensures x >= TWO32 ==> x - x % TWO32 >= TWO32
    ensures (x + TWO64) % TWO32 == x % TWO32
  {
  }

  /** A deadline, as built at one moment and waited for at another. */
  method Wait(clock: nat, nsec: nat, later: nat) returns (wait: nat)
    requires clock + nsec / 100 < TWO64 && nsec < TWO64 && later < TWO64
    ensures var deadline := 100 * clock + nsec;
            var left := MillisOf(deadline) - MillisOf(100 * later);
            if left <= 0 then wait == 0 else left < UINT_MAX <==> WaitsFor(wait, deadline - 100 * later)
  {
    var abstime := new TimeSpec;
    abstime.SetNsec(clock, nsec, false);
    wait := GetMilliseconds(abstime, later);
  }

  /** A deadline 2^32 - 1 milliseconds away is waited for for ever, and one a millisecond later not at all. */
  method DistantDeadlines() returns (forEver: nat, notAtAll: nat)
    ensures forEver == INFINITE && notAtAll == 0
  {
    var abstime := new TimeSpec;
    abstime.SetNsec(0, 4_294_967_295_000_000, false);
    forEver := GetMilliseconds(abstime, 0);
    abstime.tvSec, abstime.tvNsec := 4_294_967, 296_000_000;
    notAtAll := GetMilliseconds(abstime, 0);
  }

  // ----- the older struct timespec: a FILETIME and a cap on the wait

  class FileTimeSpec {
    var i64: int
    var maxTimeoutMsec: int

    /** `narrowLong` is a 32-bit long, as on Windows. */
    method SetNsec(clock: nat, nsec: nat, narrowLong: bool)
      requires nsec < TWO64 && clock + nsec / 100 < TWO64 / 2
      modifies this
      ensures 100 * i64 <= 100 * clock + nsec < 100 * i64 + 100
      ensures 0 <= maxTimeoutMsec && 1_000_000 * maxTimeoutMsec <= nsec
      ensures narrowLong ==> maxTimeoutMsec <= INT_MAX32
      ensures (narrowLong ==> nsec / 1_000_000 <= INT_MAX32) <==> nsec < 1_000_000 * maxTimeoutMsec + 1_000_000
      ensures narrowLong && nsec / 1_000_000 > 2_147_483_647 ==> maxTimeoutMsec == 2_147_483_647
    {
      var msec := nsec / 1_000_000;
      i64 := clock + nsec / 100;
      if narrowLong {
        msec := Min(msec, INT_MAX32);
      }
      maxTimeoutMsec := msec;
    }
  }

  /**
    Whatever the clock did since the deadline was set, the wait is never longer than the cap,
    never longer than the time left, and endless only for a null deadline or a cap that is.
    The caps that `SetNsec` stores are never negative.
   */
  method GetMillisecondsCapped(abstime: FileTimeSpec?, clock: int) returns (wait: nat)
    ensures wait <= UINT_MAX
    ensures abstime == null ==> wait == INFINITE
    ensures abstime != null && abstime.i64 <= clock - 10_000 ==> wait == 0
    ensures abstime != null && 0 <= abstime.maxTimeoutMsec ==>
              && wait <= abstime.maxTimeoutMsec
              && (abstime.i64 <= clock ==> wait == 0)
              && (abstime.i64 > clock ==> 10_000 * wait <= abstime.i64 - clock)
              && (wait < abstime.maxTimeoutMsec && wait < UINT_MAX && abstime.i64 > clock ==>
                    abstime.i64 - clock < 10_000 * wait + 10_000)
              && (wait == INFINITE ==> UINT_MAX <= abstime.maxTimeoutMsec)
  {
    if abstime == null {
      return INFINITE;
    }
    var millis := Quotient(abstime.i64 - clock, 10_000);
    if millis < 0 {
      return 0;
    }
    if millis > abstime.maxTimeoutMsec {
      millis := abstime.maxTimeoutMsec;
    }
    if millis > UINT_MAX {
      millis := UINT_MAX;
    }
    return millis % TWO32;
  }

  /**
    With a 32-bit long, no clock can make a wait last longer than was asked for when the deadline
    was set, let alone for ever; and while the clock runs forwards it ends by the deadline.
   */
  method WaitCapped(clock: nat, nsec: nat, later: int) returns (wait: nat)
    requires nsec < TWO64 && clock + nsec / 100 < TWO64 / 2
    ensures wait != INFINITE && 1_000_000 * wait <= nsec
    ensures later >= clock ==> 1_000_000 * wait <= Max(100 * clock + nsec - 100 * later, 0)
    ensures clock <= later && nsec / 1_000_000 <= INT_MAX32 ==>
              Max(100 * clock + nsec - 100 * later, 0) < 1_000_000 * wait + 1_000_000
  {
    var abstime := new FileTimeSpec;
    abstime.SetNsec(clock, nsec, true);
    wait := GetMillisecondsCapped(abstime, later);
  }
}
