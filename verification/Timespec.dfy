/** Deadlines: set_timespec_nsec, set_timespec, cmp_timespec and diff_timespec of
    my_global.h, in both representations.  The clock readings of my_getsystime and
    GetSystemTimeAsFileTime, in units of 100 ns, are parameters. */
module Timespec {
  import opened Machine

  const BILLION := 1_000_000_000
  const TICKS := 10_000_000       // 100 ns units in a second
  const TWO64 := 0x1_0000_0000_0000_0000

  // ----- the struct form

  datatype Ts = Ts(sec: int64, nsec: int)
  {
    function Total(): int { (sec as int) * BILLION + nsec }

    predicate Normalised() { 0 <= nsec < BILLION }
  }

  /** The deadline nsec nanoseconds after the reading of the clock. */
  function Deadline(clock: uint64, nsec: uint64): Ts
  {
    var now := ToU64(clock as int + nsec as int / 100);
    Ts(now / TICKS, (now % TICKS) * 100 + nsec % 100)
  }

  /** Always normalised; exactly clock*100 + nsec nanoseconds if and only if the sum
      of the ticks does not overflow 64 bits, and otherwise with that sum wrapped. */
  lemma DeadlineExact(clock: uint64, nsec: uint64)
    ensures Deadline(clock, nsec).Normalised()
    ensures Deadline(clock, nsec).Total() == (clock as int) * 100 + nsec as int
       <==> clock as int + nsec as int / 100 < TWO64
    ensures Deadline(clock, nsec).Total() == (clock as int + nsec as int / 100) % TWO64 * 100 + nsec as int % 100
  {
  }

  /** set_timespec's argument in seconds; the product is reduced modulo 2^64. */
  function SecondsToNsec(sec: uint64): uint64
  {
    ToU64((sec as int) * BILLION)
  }

  lemma SecondsExact(sec: uint64)
    ensures SecondsToNsec(sec) == (sec as int) * BILLION <==> (sec as int) * BILLION < TWO64
    ensures SecondsToNsec(sec) as int % TWO64 == (sec as int) * BILLION % TWO64
  {
  }

  /** A deadline in seconds is exact if and only if neither the product by a billion nor
      the sum of the ticks overflows. */
  lemma DeadlineInSeconds(clock: uint64, sec: uint64)
    ensures Deadline(clock, SecondsToNsec(sec)).Total() == (clock as int) * 100 + (sec as int) * BILLION
       <==> (sec as int) * BILLION < TWO64 && clock as int + (sec as int) * TICKS < TWO64
  {
    var nsec := SecondsToNsec(sec);
    SecondsExact(sec);
    DeadlineExact(clock, nsec);
    DeadlineAtMost(clock, nsec);
    DivModUnique((sec as int) * BILLION, 100, (sec as int) * TICKS, 0);
  }

  /** A deadline is never later than asked for. */
  lemma DeadlineAtMost(clock: uint64, nsec: uint64)
    ensures Deadline(clock, nsec).Total() <= (clock as int) * 100 + nsec as int
  {
  }

  function Cmp(a: Ts, b: Ts): int
  {
    if a.sec > b.sec || (a.sec == b.sec && a.nsec > b.nsec) then 1
    else if a.sec < b.sec || (a.sec == b.sec && a.nsec < b.nsec) then -1
    else 0
  }

  function Sign(x: int): int
  {
    if x > 0 then 1 else if x < 0 then -1 else 0
  }

  /** cmp_timespec is the sign of the exact difference. */
  lemma CmpIsSign(a: Ts, b: Ts)
    requires a.Normalised() && b.Normalised()
    ensures Cmp(a, b) == Sign(a.Total() - b.Total())
  {
  }

  /** Hence a total order: antisymmetric, with equality only of equal values, and
      transitive. */
  lemma CmpIsTotalOrder(a: Ts, b: Ts, c: Ts)
    requires a.Normalised() && b.Normalised() && c.Normalised()
    ensures Cmp(a, b) > 0 <==> a.Total() > b.Total()
    ensures Cmp(b, a) == -Cmp(a, b)
    ensures Cmp(a, b) == 0 <==> a == b
    ensures Cmp(a, b) <= 0 && Cmp(b, c) <= 0 ==> Cmp(a, c) <= 0
  {
  }

  /** The difference of the seconds is a signed 64-bit number, converted to unsigned
      for the product; every later operation is modulo 2^64. */
  function Diff(a: Ts, b: Ts): uint64
  {
    ToU64(ToU64(ToU64(ToU64(ToS64(a.sec as int - b.sec as int)) as int * BILLION) as int + a.nsec) as int - b.nsec)
  }

  /** None of the reductions matters but the last. */
  lemma DiffIsResidue(a: Ts, b: Ts)
    ensures Diff(a, b) == (a.Total() - b.Total()) % TWO64
  {
    var d := a.sec as int - b.sec as int;
    var s := ToU64(ToS64(d)) as int;
    var p := ToU64(s * BILLION) as int;
    var q := ToU64(p + a.nsec) as int;
    var k1 := Congruent(d, s);
    var k2 := Reduction(s * BILLION);
    var k3 := Reduction(p + a.nsec);
    var k := k1 * BILLION + k2 + k3;
    assert q - b.nsec == a.Total() - b.Total() - TWO64 * k;
    SameResidue(q - b.nsec, a.Total() - b.Total(), k);
  }

  lemma Congruent(d: int, s: int) returns (k: int)
    requires s == ToU64(ToS64(d))
    ensures s == d - TWO64 * k
  {
    var u := d % TWO64;
    DivModIdentity(d, TWO64);
    if 2 * u < TWO64 {
      DivModUnique(u, TWO64, 0, u);
    } else {
      DivModUnique(u - TWO64, TWO64, -1, u);
    }
    k := d / TWO64;
  }

  lemma Reduction(x: int) returns (k: int)
    ensures ToU64(x) == x - TWO64 * k
  {
    k := x / TWO64;
    DivModIdentity(x, TWO64);
  }

  lemma SameResidue(x: int, y: int, k: int)
    requires x == y - TWO64 * k
    ensures x % TWO64 == y % TWO64
  {
  }

  /** Main result on diff_timespec: the exact difference if and only if that is
      neither negative nor 2^64 or more. */
  lemma DiffExact(a: Ts, b: Ts)
    ensures Diff(a, b) == a.Total() - b.Total() <==> 0 <= a.Total() - b.Total() < TWO64
    ensures a.Normalised() && b.Normalised() && Cmp(a, b) >= 0 && a.Total() - b.Total() < TWO64 ==>
      Diff(a, b) == a.Total() - b.Total()
  {
    DiffIsResidue(a, b);
    var d := a.Total() - b.Total();
    if 0 <= d < TWO64 {
      DivModUnique(d, TWO64, 0, d);
    }
    if a.Normalised() && b.Normalised() {
      CmpIsSign(a, b);
    }
  }

  /** Two deadlines set from one clock reading are ordered as the requests are, and
      diff_timespec is the difference of the requests exactly when that is not
      negative. */
  lemma DeadlinesKeepDifference(clock: uint64, n1: uint64, n2: uint64)
    requires clock as int + n1 as int / 100 < TWO64 && clock as int + n2 as int / 100 < TWO64
    ensures Cmp(Deadline(clock, n1), Deadline(clock, n2)) == Sign(n1 as int - n2 as int)
    ensures Diff(Deadline(clock, n1), Deadline(clock, n2)) == n1 as int - n2 as int <==> n1 >= n2
  {
    DeadlineExact(clock, n1);
    DeadlineExact(clock, n2);
    DiffExact(Deadline(clock, n1), Deadline(clock, n2));
    CmpIsSign(Deadline(clock, n1), Deadline(clock, n2));
  }

  // ----- the FILETIME form

  const INT_MAX32 := 0x7FFF_FFFF

  /** Deadline in ticks, and the longest wait in milliseconds. */
  datatype Ft = Ft(i64: int64, maxTimeoutMsec: int)

  function FtDeadline(clock: int64, nsec: uint64): Ft
  {
    var msec := nsec as int / 1_000_000;
    Ft(ToS64(clock as int + ToS64(nsec as int / 100) as int), if msec < INT_MAX32 then msec else INT_MAX32)
  }

  function FtCmp(a: Ft, b: Ft): int
  {
    if a.i64 > b.i64 then 1 else if a.i64 < b.i64 then -1 else 0
  }

  function FtDiff(a: Ft, b: Ft): uint64
  {
    ToU64(ToS64(FtProduct(a, b)))
  }

  /** The signed product that diff_timespec computes, before it is put into 64 bits. */
  function FtProduct(a: Ft, b: Ft): int
  {
    ToS64(a.i64 as int - b.i64 as int) as int * 100
  }

  /** Main result on the two forms: from one clock reading, the FILETIME deadline is
      the struct deadline rounded down to 100 ns if and only if it fits in 63 bits; in
      any case it has the low 64 bits of the sum. */
  lemma FtIsFloor(clock: int64, nsec: uint64)
    requires clock >= 0
    ensures FtDeadline(clock, nsec).i64 == Deadline(clock, nsec).Total() / 100
       <==> clock as int + nsec as int / 100 < TWO64 / 2
    ensures clock as int + nsec as int / 100 < TWO64 / 2 ==>
      FtDeadline(clock, nsec).i64 == clock as int + nsec as int / 100
    ensures ToU64(FtDeadline(clock, nsec).i64) == (clock as int + nsec as int / 100) % TWO64
  {
    var t := nsec as int / 100;
    var sum := clock as int + t;
    DeadlineExact(clock, nsec);
    TwosComplementUnique(TWO64, t, t);
    ProductInWord(sum);
    DivModIdentity(nsec, 100);
    DivModUnique((clock as int) * 100 + nsec as int, 100, sum, nsec as int % 100);
    if sum < TWO64 / 2 {
      TwosComplementUnique(TWO64, sum, sum);
    }
  }

  /** Its comparison never reverses an order seen in the struct form: it may only
      merge deadlines of the same tick. */
  lemma FtCmpNeverReverses(clock: int64, n1: uint64, n2: uint64)
    requires clock >= 0
    requires clock as int + n1 as int / 100 < TWO64 / 2 && clock as int + n2 as int / 100 < TWO64 / 2
    ensures var c, f := Cmp(Deadline(clock, n1), Deadline(clock, n2)), FtCmp(FtDeadline(clock, n1), FtDeadline(clock, n2));
      (f == c || f == 0) && (f == 0 <==> n1 as int / 100 == n2 as int / 100)
  {
    FtIsFloor(clock, n1);
    FtIsFloor(clock, n2);
    DeadlineExact(clock, n1);
    DeadlineExact(clock, n2);
    CmpIsSign(Deadline(clock, n1), Deadline(clock, n2));
    FloorMonotone(n1, n2);
    FloorMonotone(n2, n1);
  }

  lemma FloorMonotone(x: nat, y: nat)
    ensures x / 100 < y / 100 ==> x < y
  {
  }

  /** Its difference, of any two deadlines set from one reading, is that of the ticks
      modulo 2^64.  So it is the difference of the ticks exactly when that is not
      negative, also where the signed product behind it wraps; that product does not wrap
      exactly when the ticks make 63 bits of nanoseconds. */
  lemma FtDiffValue(clock: int64, n1: uint64, n2: uint64)
    requires clock >= 0
    requires clock as int + n1 as int / 100 < TWO64 / 2 && clock as int + n2 as int / 100 < TWO64 / 2
    ensures var d, f := 100 * (n1 as int / 100 - n2 as int / 100), FtDiff(FtDeadline(clock, n1), FtDeadline(clock, n2));
      && f == d % TWO64
      && (f == d <==> n1 as int / 100 >= n2 as int / 100)
    ensures var d, p := 100 * (n1 as int / 100 - n2 as int / 100), FtProduct(FtDeadline(clock, n1), FtDeadline(clock, n2));
      ToS64(p) == p <==> -(TWO64 / 2) <= d < TWO64 / 2
  {
    FtProductValue(clock, n1, n2);
    ProductInWord(100 * (n1 as int / 100 - n2 as int / 100));
    BelowWord(n1, n2);
  }

  lemma FtProductValue(clock: int64, n1: uint64, n2: uint64)
    requires clock >= 0
    requires clock as int + n1 as int / 100 < TWO64 / 2 && clock as int + n2 as int / 100 < TWO64 / 2
    ensures FtProduct(FtDeadline(clock, n1), FtDeadline(clock, n2)) == 100 * (n1 as int / 100 - n2 as int / 100)
  {
    var t := n1 as int / 100 - n2 as int / 100;
    FtIsFloor(clock, n1);
    FtIsFloor(clock, n2);
    TwosComplementUnique(TWO64, t, t);
  }

  /** Of any two deadlines: the exact number of nanoseconds modulo 2^64. */
  lemma FtDiffIsResidue(a: Ft, b: Ft)
    ensures FtDiff(a, b) == 100 * (a.i64 as int - b.i64 as int) % TWO64
  {
    var d := a.i64 as int - b.i64 as int;
    ProductInWord(FtProduct(a, b));
    ProductInWord(d);
    var k1 := Reduction(ToS64(d));
    var k2 := Reduction(d);
    SameResidue(FtProduct(a, b), 100 * d, 100 * (k2 - k1));
  }

  /** A number put into a signed and then an unsigned word. */
  lemma ProductInWord(d: int)
    ensures ToU64(ToS64(d)) == d % TWO64
    ensures ToS64(d) == d <==> -(TWO64 / 2) <= d < TWO64 / 2
  {
    var k := Congruent(d, ToU64(ToS64(d)));
    SameResidue(d - TWO64 * k, d, k);
    if -(TWO64 / 2) <= d < TWO64 / 2 {
      TwosComplementUnique(TWO64, d, d);
    }
  }

  lemma BelowWord(n1: uint64, n2: uint64)
    ensures var d := 100 * (n1 as int / 100 - n2 as int / 100);
      d % TWO64 == d <==> n1 as int / 100 >= n2 as int / 100
  {
    var d := 100 * (n1 as int / 100 - n2 as int / 100);
    if d >= 0 {
      DivModUnique(d, TWO64, 0, d);
    }
  }

  /** It is off by less than one tick from the difference of the requests exactly when
      the ticks are not in reverse order. */
  lemma FtDiffWithinTick(clock: int64, n1: uint64, n2: uint64)
    requires clock >= 0
    requires clock as int + n1 as int / 100 < TWO64 / 2 && clock as int + n2 as int / 100 < TWO64 / 2
    ensures var f := FtDiff(FtDeadline(clock, n1), FtDeadline(clock, n2));
      -100 < f as int - (n1 as int - n2 as int) < 100 <==> n1 as int / 100 >= n2 as int / 100
    ensures n1 as int / 100 >= n2 as int / 100 ==> FtDiff(FtDeadline(clock, n1), FtDeadline(clock, n2)) % 100 == 0
    ensures n1 >= n2 ==> Diff(Deadline(clock, n1), Deadline(clock, n2)) == n1 as int - n2 as int
    ensures var p := FtProduct(FtDeadline(clock, n1), FtDeadline(clock, n2));
      ToS64(p) == p <==> -(TWO64 / 2) <= 100 * (n1 as int / 100 - n2 as int / 100) < TWO64 / 2
  {
    var d := 100 * (n1 as int / 100 - n2 as int / 100);
    FtDiffValue(clock, n1, n2);
    DeadlinesKeepDifference(clock, n1, n2);
    TickError(n1, n2);
    if d < 0 {
      TicksApart(n1, n2);
      DivModUnique(d, TWO64, -1, d + TWO64);
    }
  }

  lemma TicksApart(n1: uint64, n2: uint64)
    requires n1 as int / 100 < n2 as int / 100
    ensures var d := 100 * (n1 as int / 100 - n2 as int / 100);
      -TWO64 < d < 0
  {
  }

  lemma TickError(n1: nat, n2: nat)
    ensures -100 < 100 * (n1 / 100 - n2 / 100) - (n1 - n2) < 100
    ensures 100 * (n1 / 100 - n2 / 100) % 100 == 0
  {
  }

  // ----- the functions on variables

  class StructTimespec {
    var tv_sec: int64
    var tv_nsec: int

    function Value(): Ts
      reads this
    {
      Ts(tv_sec, tv_nsec)
    }

    /** set_timespec_nsec */
    method SetTimespecNsec(clock: uint64, nsec: uint64)
      modifies this
      ensures Value() == Deadline(clock, nsec) && Value().Normalised()
      ensures Value().Total() == (clock as int) * 100 + nsec as int <==> clock as int + nsec as int / 100 < TWO64
    {
      var now := ToU64(clock as int + nsec as int / 100);
      var sec: uint64 := now / TICKS;
      tv_sec := ToS64(sec);
      tv_nsec := (now % TICKS) * 100 + nsec % 100;
      TwosComplementUnique(TWO64, sec, sec);
      DeadlineExact(clock, nsec);
    }

    /** set_timespec */
    method SetTimespec(clock: uint64, sec: uint64)
      modifies this
      ensures Value() == Deadline(clock, SecondsToNsec(sec)) && Value().Normalised()
      ensures Value().Total() == (clock as int) * 100 + (sec as int) * BILLION
         <==> (sec as int) * BILLION < TWO64 && clock as int + (sec as int) * TICKS < TWO64
    {
      SetTimespecNsec(clock, ToU64((sec as int) * BILLION));
      DeadlineInSeconds(clock, sec);
    }
  }

  class FileTimespec {
    var i64: int64
    var max_timeout_msec: int

    function Value(): Ft
      reads this
    {
      Ft(i64, max_timeout_msec)
    }

    /** set_timespec_nsec */
    method SetTimespecNsec(clock: int64, nsec: uint64)
      modifies this
      ensures Value() == FtDeadline(clock, nsec)
      ensures 0 <= max_timeout_msec <= INT_MAX32 && max_timeout_msec * 1_000_000 <= nsec as int
      ensures max_timeout_msec == INT_MAX32 || nsec as int < (max_timeout_msec + 1) * 1_000_000
    {
      var maxTimeout: int := nsec as int / 1_000_000;
      i64 := ToS64(clock as int + ToS64(nsec as int / 100) as int);
      maxTimeout := if maxTimeout < INT_MAX32 then maxTimeout else INT_MAX32;
      max_timeout_msec := maxTimeout;
    }
  }

  /** cmp_timespec */
  method CmpTimespec(ts1: StructTimespec, ts2: StructTimespec) returns (r: int)
    ensures ts1.Value().Normalised() && ts2.Value().Normalised() ==>
      r == Sign(ts1.Value().Total() - ts2.Value().Total())
    ensures r == Cmp(ts1.Value(), ts2.Value())
    ensures ts1.Value().Normalised() && ts2.Value().Normalised() ==>
      && (r == 1 <==> ts1.Value().Total() > ts2.Value().Total())
      && (r == 0 <==> ts1.Value().Total() == ts2.Value().Total())
      && (r == -1 <==> ts1.Value().Total() < ts2.Value().Total())
  {
    if ts1.Value().Normalised() && ts2.Value().Normalised() {
      CmpIsSign(ts1.Value(), ts2.Value());
    }
    if ts1.tv_sec > ts2.tv_sec || (ts1.tv_sec == ts2.tv_sec && ts1.tv_nsec > ts2.tv_nsec) {
      return 1;
    }
    if ts1.tv_sec < ts2.tv_sec || (ts1.tv_sec == ts2.tv_sec && ts1.tv_nsec < ts2.tv_nsec) {
      return -1;
    }
    return 0;
  }
}
