/** Interval arithmetic on struct timeval: evutil_timeradd, evutil_timersub,
    evutil_timercmp, evutil_timerisset and evutil_timerclear of event2/util.h. */
module Timeval {
  import opened Machine

  const MILLION := 1_000_000

  /** Width of the `long` fields. */
  datatype Width = Long32 | Long64
  {
    function Modulus(): nat
      ensures Modulus() > 4 * MILLION && Modulus() % 2 == 0
    {
      if Long32? then 0x1_0000_0000 else 0x1_0000_0000_0000_0000
    }

    predicate Fits(x: int)
    {
      -(Modulus() / 2) <= x < Modulus() / 2
    }

    /** What the modulus leaves of a number: its low 32 or 64 bits. */
    function Low(x: int): nat
    {
      if Long32? then x % 0x1_0000_0000 else x % 0x1_0000_0000_0000_0000
    }

    /** The value a sum or difference leaves in a field: whole moduli are added or
        taken away until it fits. */
    function Wrap(x: int): (r: int)
      ensures Fits(r)
      decreases if Fits(x) then 0 else if x < 0 then -x else x + Modulus()
    {
      if Fits(x) then x else if x < 0 then Wrap(x + Modulus()) else Wrap(x - Modulus())
    }
  }

  datatype Tv = Tv(sec: int, usec: int)
  {
    function Total(): int { sec * MILLION + usec }

    predicate Normalised() { 0 <= usec < MILLION }

    predicate In(w: Width) { w.Fits(sec) && w.Fits(usec) }
  }

  // ----- what the macros compute, on values

  function Carry(w: Width, t: Tv): Tv
  {
    if t.usec >= MILLION then Tv(w.Wrap(t.sec + 1), w.Wrap(t.usec - MILLION)) else t
  }

  function Borrow(w: Width, t: Tv): Tv
  {
    if t.usec < 0 then Tv(w.Wrap(t.sec - 1), w.Wrap(t.usec + MILLION)) else t
  }

  function Add(w: Width, a: Tv, b: Tv): Tv
  {
    Carry(w, Tv(w.Wrap(a.sec + b.sec), w.Wrap(a.usec + b.usec)))
  }

  function Sub(w: Width, a: Tv, b: Tv): Tv
  {
    Borrow(w, Tv(w.Wrap(a.sec - b.sec), w.Wrap(a.usec - b.usec)))
  }

  /** No field overflows: the microseconds as they are added, the seconds also after
      the carry. */
  predicate AddFits(w: Width, a: Tv, b: Tv)
  {
    && w.Fits(a.usec + b.usec)
    && w.Fits(a.sec + b.sec + if a.usec + b.usec >= MILLION then 1 else 0)
  }

  predicate SubFits(w: Width, a: Tv, b: Tv)
  {
    && w.Fits(a.usec - b.usec)
    && w.Fits(a.sec - b.sec - if a.usec - b.usec < 0 then 1 else 0)
  }

  /** Wrapping is the two's-complement reading of the low bits. */
  lemma {:induction false} WrapIsTwosComplement(w: Width, x: int)
    ensures w.Wrap(x) == TwosComplement(w.Modulus(), x)
    decreases if w.Fits(x) then 0 else if x < 0 then -x else x + w.Modulus()
  {
    var m := w.Modulus();
    if w.Fits(x) {
      TwosComplementUnique(m, x, x);
    } else {
      var y := if x < 0 then x + m else x - m;
      WrapIsTwosComplement(w, y);
      DivModIdentity(y, m);
      DivModUnique(x, m, y / m + (if x < 0 then -1 else 1), y % m);
    }
  }

  /** A sum of two fields, possibly off by a carry, wraps by at most one modulus. */
  lemma WrapOnce(w: Width, x: int) returns (e: int)
    requires -(w.Modulus() as int) <= x < w.Modulus()
    ensures e == 0 || e == w.Modulus() || e == -(w.Modulus() as int)
    ensures w.Wrap(x) == x - e
    ensures e == 0 <==> w.Fits(x)
  {
    var m := w.Modulus();
    e := if w.Fits(x) then 0 else if x < 0 then -(m as int) else m as int;
    assert w.Fits(x - e);
  }

  lemma WrapPeriod(w: Width, x: int)
    ensures w.Wrap(x + w.Modulus()) == w.Wrap(x)
  {
  }

  /** Wrapping twice is wrapping once. */
  lemma {:induction false} WrapStep(w: Width, x: int, d: int)
    ensures w.Wrap(w.Wrap(x) + d) == w.Wrap(x + d)
    decreases if w.Fits(x) then 0 else if x < 0 then -x else x + w.Modulus()
  {
    if !w.Fits(x) {
      if x < 0 {
        WrapStep(w, x + w.Modulus(), d);
        WrapPeriod(w, x + d);
      } else {
        WrapStep(w, x - w.Modulus(), d);
        WrapPeriod(w, x - w.Modulus() + d);
      }
    }
  }

  /** Two errors of whole moduli, one weighted by a million, cancel only if both are 0. */
  lemma ErrorsCancel(m: nat, e: int, f: int)
    requires m > 0
    requires (e == 0 || e == m || e == -(m as int)) && (f == 0 || f == m || f == -(m as int))
    ensures e * MILLION + f == 0 <==> e == 0 && f == 0
  {
  }

  /** What each field of the sum is off by: a whole modulus or nothing. */
  lemma AddErrors(w: Width, a: Tv, b: Tv) returns (e: int, f: int, c: int)
    requires a.In(w) && b.In(w)
    ensures var m, r, wu := w.Modulus() as int, Add(w, a, b), w.Wrap(a.usec + b.usec);
      && (e == 0 || e == m || e == -m) && (f == 0 || f == m || f == -m)
      && r.In(w)
      && c == (if wu >= MILLION then 1 else 0) && wu == a.usec + b.usec - f
      && r.sec == a.sec + b.sec + c - e && r.usec == wu - c * MILLION
      && (f == 0 <==> w.Fits(a.usec + b.usec)) && (e == 0 <==> w.Fits(a.sec + b.sec + c))
  {
    f := WrapOnce(w, a.usec + b.usec);
    assert Add(w, a, b) == Carry(w, Tv(w.Wrap(a.sec + b.sec), w.Wrap(a.usec + b.usec)));
    c := CarryFields(w, a.sec + b.sec, w.Wrap(a.usec + b.usec));
    e := WrapOnce(w, a.sec + b.sec + c);
  }

  lemma CarryFields(w: Width, s: int, u: int) returns (c: int)
    requires w.Fits(u)
    ensures c == if u >= MILLION then 1 else 0
    ensures Carry(w, Tv(w.Wrap(s), u)) == Tv(w.Wrap(s + c), u - c * MILLION)
    ensures w.Fits(u - c * MILLION)
  {
    c := if u >= MILLION then 1 else 0;
    if u >= MILLION {
      WrapStep(w, s, 1);
    }
  }

  lemma BorrowFields(w: Width, s: int, u: int) returns (c: int)
    requires w.Fits(u)
    ensures c == if u < 0 then 1 else 0
    ensures Borrow(w, Tv(w.Wrap(s), u)) == Tv(w.Wrap(s - c), u + c * MILLION)
    ensures w.Fits(u + c * MILLION)
  {
    c := if u < 0 then 1 else 0;
    if u < 0 {
      WrapStep(w, s, -1);
    }
  }

  lemma SubErrors(w: Width, a: Tv, b: Tv) returns (e: int, f: int, c: int)
    requires a.In(w) && b.In(w)
    ensures var m, r, wu := w.Modulus() as int, Sub(w, a, b), w.Wrap(a.usec - b.usec);
      && (e == 0 || e == m || e == -m) && (f == 0 || f == m || f == -m)
      && r.In(w)
      && c == (if wu < 0 then 1 else 0) && wu == a.usec - b.usec - f
      && r.sec == a.sec - b.sec - c - e && r.usec == wu + c * MILLION
      && (f == 0 <==> w.Fits(a.usec - b.usec)) && (e == 0 <==> w.Fits(a.sec - b.sec - c))
  {
    f := WrapOnce(w, a.usec - b.usec);
    assert Sub(w, a, b) == Borrow(w, Tv(w.Wrap(a.sec - b.sec), w.Wrap(a.usec - b.usec)));
    c := BorrowFields(w, a.sec - b.sec, w.Wrap(a.usec - b.usec));
    e := WrapOnce(w, a.sec - b.sec - c);
  }

  /** Main result on evutil_timeradd, for all fields: the result is the exact sum in
      microseconds if and only if no field overflows, and then it is normalised if and
      only if the microseconds add up to less than two seconds. */
  lemma AddExact(w: Width, a: Tv, b: Tv)
    requires a.In(w) && b.In(w)
    ensures Add(w, a, b).In(w)
    ensures Add(w, a, b).Total() == a.Total() + b.Total() <==> AddFits(w, a, b)
    ensures AddFits(w, a, b) ==> (Add(w, a, b).Normalised() <==> 0 <= a.usec + b.usec < 2 * MILLION)
  {
    var e, f, c := AddErrors(w, a, b);
    ErrorsCancel(w.Modulus(), e, f);
  }

  /** The same for evutil_timersub. */
  lemma SubExact(w: Width, a: Tv, b: Tv)
    requires a.In(w) && b.In(w)
    ensures Sub(w, a, b).In(w)
    ensures Sub(w, a, b).Total() == a.Total() - b.Total() <==> SubFits(w, a, b)
    ensures SubFits(w, a, b) ==> (Sub(w, a, b).Normalised() <==> -MILLION <= a.usec - b.usec < MILLION)
  {
    var e, f, c := SubErrors(w, a, b);
    ErrorsCancel(w.Modulus(), e, f);
  }

  /** Subtraction undoes addition and addition undoes subtraction, on normalised values,
      even where the seconds wrap. */
  lemma AddSubInverse(w: Width, a: Tv, b: Tv)
    requires a.In(w) && b.In(w) && a.Normalised() && b.Normalised()
    ensures Sub(w, Add(w, a, b), b) == a
    ensures Add(w, Sub(w, a, b), b) == a
  {
    SubUndoesAdd(w, a, b);
    AddUndoesSub(w, a, b);
  }

  lemma NormalisedAdd(w: Width, a: Tv, b: Tv) returns (c: int)
    requires a.Normalised() && b.Normalised()
    ensures c == if a.usec + b.usec >= MILLION then 1 else 0
    ensures Add(w, a, b) == Tv(w.Wrap(a.sec + b.sec + c), a.usec + b.usec - c * MILLION)
  {
    c := CarryFields(w, a.sec + b.sec, a.usec + b.usec);
  }

  lemma NormalisedSub(w: Width, a: Tv, b: Tv) returns (c: int)
    requires a.Normalised() && b.Normalised()
    ensures c == if a.usec - b.usec < 0 then 1 else 0
    ensures Sub(w, a, b) == Tv(w.Wrap(a.sec - b.sec - c), a.usec - b.usec + c * MILLION)
  {
    c := BorrowFields(w, a.sec - b.sec, a.usec - b.usec);
  }

  lemma SubUndoesAdd(w: Width, a: Tv, b: Tv)
    requires a.In(w) && b.In(w) && a.Normalised() && b.Normalised()
    ensures Sub(w, Add(w, a, b), b) == a
  {
    var c := NormalisedAdd(w, a, b);
    var d := NormalisedSub(w, Add(w, a, b), b);
    WrapStep(w, a.sec + b.sec + c, -b.sec - c);
  }

  lemma AddUndoesSub(w: Width, a: Tv, b: Tv)
    requires a.In(w) && b.In(w) && a.Normalised() && b.Normalised()
    ensures Add(w, Sub(w, a, b), b) == a
  {
    var c := NormalisedSub(w, a, b);
    var d := NormalisedAdd(w, Sub(w, a, b), b);
    WrapStep(w, a.sec - b.sec - c, b.sec + c);
  }

  // ----- accumulation

  /** acc after adding each interval of the list in turn. */
  function Accumulate(w: Width, acc: Tv, ts: seq<Tv>): Tv
  {
    if ts == [] then acc else Add(w, Accumulate(w, acc, ts[..|ts| - 1]), ts[|ts| - 1])
  }

  ghost predicate AllIn(w: Width, ts: seq<Tv>)
  {
    forall t :: t in ts ==> t.In(w)
  }

  ghost predicate AllNormalised(w: Width, ts: seq<Tv>)
  {
    forall t :: t in ts ==> t.In(w) && t.Normalised()
  }

  lemma PrefixIn(w: Width, ts: seq<Tv>, i: nat)
    requires AllIn(w, ts) && i < |ts|
    ensures AllIn(w, ts[..i]) && ts[i].In(w)
  {
    assert ts[i] in ts && forall t :: t in ts[..i] ==> t in ts;
  }

  lemma PrefixNormalised(w: Width, ts: seq<Tv>, i: nat)
    requires AllNormalised(w, ts) && i < |ts|
    ensures AllNormalised(w, ts[..i]) && ts[i].In(w) && ts[i].Normalised()
  {
    assert ts[i] in ts && forall t :: t in ts[..i] ==> t in ts;
  }

  function SumOfTotals(ts: seq<Tv>): int
  {
    if ts == [] then 0 else SumOfTotals(ts[..|ts| - 1]) + ts[|ts| - 1].Total()
  }

  /** No step overflows a field. */
  ghost predicate AccumulateFits(w: Width, acc: Tv, ts: seq<Tv>)
  {
    forall i :: 0 <= i < |ts| ==> AddFits(w, Accumulate(w, acc, ts[..i]), ts[i])
  }

  /** Every partial sum is exact. */
  ghost predicate AccumulateIsExact(w: Width, acc: Tv, ts: seq<Tv>)
  {
    forall i :: 0 <= i <= |ts| ==> Accumulate(w, acc, ts[..i]).Total() == acc.Total() + SumOfTotals(ts[..i])
  }

  /** Fields of any size: the total is always exact modulo 2^N, and all partial sums are
      exact if and only if no step overflows a field. */
  lemma AccumulateAnyFields(w: Width, acc: Tv, ts: seq<Tv>)
    requires acc.In(w) && AllIn(w, ts)
    ensures Accumulate(w, acc, ts).In(w)
    ensures w.Low(Accumulate(w, acc, ts).Total()) == w.Low(acc.Total() + SumOfTotals(ts))
    ensures AccumulateIsExact(w, acc, ts) <==> AccumulateFits(w, acc, ts)
  {
    AccumulateLow(w, acc, ts);
    if AccumulateFits(w, acc, ts) {
      FitsThenExact(w, acc, ts);
    }
    if AccumulateIsExact(w, acc, ts) {
      ExactThenFits(w, acc, ts);
    }
  }

  /** x plus k moduli. */
  function Moduli(w: Width, x: int, k: int): int { x + w.Modulus() * k }

  lemma AccumulateLow(w: Width, acc: Tv, ts: seq<Tv>)
    requires acc.In(w) && AllIn(w, ts)
    ensures Accumulate(w, acc, ts).In(w)
    ensures w.Low(Accumulate(w, acc, ts).Total()) == w.Low(acc.Total() + SumOfTotals(ts))
  {
    var k := AccumulateModuli(w, acc, ts);
    SameModulo(w, acc.Total() + SumOfTotals(ts), k);
  }

  lemma SameModulo(w: Width, x: int, k: int)
    ensures w.Low(Moduli(w, x, k)) == w.Low(x)
  {
    DivModIdentity(x, w.Modulus());
    DivModUnique(Moduli(w, x, k), w.Modulus(), x / w.Modulus() + k, x % w.Modulus());
  }

  lemma {:induction false} AccumulateModuli(w: Width, acc: Tv, ts: seq<Tv>) returns (k: int)
    requires acc.In(w) && AllIn(w, ts)
    ensures Accumulate(w, acc, ts).In(w)
    ensures Accumulate(w, acc, ts).Total() == Moduli(w, acc.Total() + SumOfTotals(ts), k)
    decreases |ts|
  {
    if ts == [] {
      k := 0;
    } else {
      var n := |ts| - 1;
      PrefixIn(w, ts, n);
      k := AccumulateModuli(w, acc, ts[..n]);
      var d := AddModuli(w, Accumulate(w, acc, ts[..n]), ts[n]);
      k := k + d;
    }
  }

  lemma AddModuli(w: Width, a: Tv, b: Tv) returns (k: int)
    requires a.In(w) && b.In(w)
    ensures Add(w, a, b).In(w)
    ensures Add(w, a, b).Total() == Moduli(w, a.Total() + b.Total(), k)
  {
    var e, f, c := AddErrors(w, a, b);
    k := -(Sign(e) * MILLION + Sign(f));
  }

  function Sign(x: int): int { if x > 0 then 1 else if x < 0 then -1 else 0 }

  /** One more partial sum is exact if the one before is and the step does not overflow,
      and not if only that step overflows. */
  lemma PartialSum(w: Width, acc: Tv, ts: seq<Tv>, i: nat)
    requires acc.In(w) && AllIn(w, ts) && i < |ts|
    requires Accumulate(w, acc, ts[..i]).Total() == acc.Total() + SumOfTotals(ts[..i])
    ensures Accumulate(w, acc, ts[..i + 1]).Total() == acc.Total() + SumOfTotals(ts[..i + 1])
       <==> AddFits(w, Accumulate(w, acc, ts[..i]), ts[i])
  {
    PrefixIn(w, ts, i);
    var k := AccumulateModuli(w, acc, ts[..i]);
    AddExact(w, Accumulate(w, acc, ts[..i]), ts[i]);
    assert ts[..i + 1][..i] == ts[..i] && ts[..i + 1][i] == ts[i];
  }

  lemma FitsThenExact(w: Width, acc: Tv, ts: seq<Tv>)
    requires acc.In(w) && AllIn(w, ts) && AccumulateFits(w, acc, ts)
    ensures AccumulateIsExact(w, acc, ts)
  {
    forall i | 0 <= i <= |ts|
      ensures Accumulate(w, acc, ts[..i]).Total() == acc.Total() + SumOfTotals(ts[..i])
    {
      FitsThenPartial(w, acc, ts, i);
    }
  }

  lemma {:induction false} FitsThenPartial(w: Width, acc: Tv, ts: seq<Tv>, i: nat)
    requires acc.In(w) && AllIn(w, ts)
    requires AccumulateFits(w, acc, ts) && i <= |ts|
    ensures Accumulate(w, acc, ts[..i]).Total() == acc.Total() + SumOfTotals(ts[..i])
  {
    if i > 0 {
      FitsThenPartial(w, acc, ts, i - 1);
      PartialSum(w, acc, ts, i - 1);
    }
  }

  lemma ExactThenFits(w: Width, acc: Tv, ts: seq<Tv>)
    requires acc.In(w) && AllIn(w, ts) && AccumulateIsExact(w, acc, ts)
    ensures AccumulateFits(w, acc, ts)
  {
    forall i | 0 <= i < |ts|
      ensures AddFits(w, Accumulate(w, acc, ts[..i]), ts[i])
    {
      assert Accumulate(w, acc, ts[..i + 1]).Total() == acc.Total() + SumOfTotals(ts[..i + 1]);
      PartialSum(w, acc, ts, i);
    }
  }

  /** Main result on accumulation: any list of normalised intervals, with sum S in
      microseconds, leaves the seconds of S wrapped and its exact microseconds, whatever
      the partial sums did.  So the result is always normalised, and it is the exact sum
      if and only if the seconds of S fit. */
  lemma AccumulateExact(w: Width, acc: Tv, ts: seq<Tv>)
    requires acc.In(w) && acc.Normalised()
    requires AllNormalised(w, ts)
    ensures var S, r := acc.Total() + SumOfTotals(ts), Accumulate(w, acc, ts);
      && r == Fields(w, S)
      && r.In(w) && r.Normalised()
      && (r.Total() == S <==> w.Fits(S / MILLION))
  {
    var S := acc.Total() + SumOfTotals(ts);
    AccumulateWraps(w, acc, ts, S);
    DivModIdentity(S, MILLION);
  }

  /** A total put into the two fields: its seconds wrapped, its microseconds exact. */
  function Fields(w: Width, total: int): Tv
  {
    Tv(w.Wrap(total / MILLION), total % MILLION)
  }

  lemma NormalisedFields(w: Width, t: Tv)
    requires t.In(w) && t.Normalised()
    ensures Fields(w, t.Total()) == t
  {
    DivModUnique(t.Total(), MILLION, t.sec, t.usec);
  }

  lemma {:induction false} AccumulateWraps(w: Width, acc: Tv, ts: seq<Tv>, total: int)
    requires acc.In(w) && acc.Normalised() && AllNormalised(w, ts)
    requires total == acc.Total() + SumOfTotals(ts)
    ensures Accumulate(w, acc, ts) == Fields(w, total)
    decreases |ts|
  {
    if ts == [] {
      NormalisedFields(w, acc);
    } else {
      var before, last := ts[..|ts| - 1], ts[|ts| - 1];
      PrefixNormalised(w, ts, |ts| - 1);
      AccumulateWraps(w, acc, before, total - last.Total());
      AddToFields(w, total - last.Total(), Accumulate(w, acc, before), last, total);
    }
  }

  /** One more interval on top of such a total. */
  lemma AddToFields(w: Width, total: int, acc: Tv, t: Tv, sum: int)
    requires t.Normalised() && sum == total + t.Total() && acc == Fields(w, total)
    ensures Add(w, acc, t) == Fields(w, sum)
  {
    DivModIdentity(total, MILLION);
    var q, u := total / MILLION, total % MILLION;
    var c := NormalisedAdd(w, Tv(w.Wrap(q), u), t);
    WrapStep(w, q, t.sec + c);
    DivModUnique(sum, MILLION, q + t.sec + c, u + t.usec - c * MILLION);
  }

  // ----- comparison

  datatype Cmp = Eq | Le | Lt | Ge | Gt

  predicate Holds(op: Cmp, x: int, y: int)
  {
    match op
    case Eq => x == y
    case Le => x <= y
    case Lt => x < y
    case Ge => x >= y
    case Gt => x > y
  }

  /** evutil_timercmp(tvp, uvp, cmp) */
  predicate TimerCmp(a: Tv, b: Tv, op: Cmp)
  {
    if a.sec == b.sec then Holds(op, a.usec, b.usec) else Holds(op, a.sec, b.sec)
  }

  /** Every comparison is the comparison of the totals whenever the microseconds are
      less than a second apart, as they are in normalised values. */
  lemma CmpIsTotalOrder(a: Tv, b: Tv, op: Cmp)
    requires -MILLION < a.usec - b.usec < MILLION
    ensures TimerCmp(a, b, op) <==> Holds(op, a.Total(), b.Total())
    ensures TimerCmp(a, b, Eq) <==> a.Total() == b.Total()
    ensures TimerCmp(a, b, Le) <==> a.Total() <= b.Total()
    ensures TimerCmp(a, b, Lt) <==> a.Total() < b.Total()
    ensures TimerCmp(a, b, Ge) <==> a.Total() >= b.Total()
    ensures TimerCmp(a, b, Gt) <==> a.Total() > b.Total()
  {
  }

  /** Every operator gives the answer the totals give. */
  ghost predicate CmpAgrees(a: Tv, b: Tv)
  {
    forall op :: TimerCmp(a, b, op) <==> Holds(op, a.Total(), b.Total())
  }

  /** For any two values, normalised or not: all operators are right if and only if the
      value with fewer seconds does not make up for them in its microseconds. */
  lemma CmpExact(a: Tv, b: Tv)
    ensures CmpAgrees(a, b) <==>
      && (a.sec < b.sec ==> a.usec - b.usec < (b.sec - a.sec) * MILLION)
      && (b.sec < a.sec ==> b.usec - a.usec < (a.sec - b.sec) * MILLION)
  {
    if CmpAgrees(a, b) {
      assert TimerCmp(a, b, Lt) <==> Holds(Lt, a.Total(), b.Total());
      assert TimerCmp(a, b, Gt) <==> Holds(Gt, a.Total(), b.Total());
    }
  }

  /** What the microseconds alone can promise: a distance is safe for all seconds if and
      only if it is less than a second either way, as between normalised values. */
  lemma CmpExactByDistance(d: int)
    ensures (forall a: Tv, b: Tv | a.usec - b.usec == d :: CmpAgrees(a, b)) <==> -MILLION < d < MILLION
  {
    if -MILLION < d < MILLION {
      forall a: Tv, b: Tv, op | a.usec - b.usec == d
        ensures TimerCmp(a, b, op) <==> Holds(op, a.Total(), b.Total())
      {
        CmpIsTotalOrder(a, b, op);
      }
    } else if d >= MILLION {
      CmpExact(Tv(0, d), Tv(1, 0));
    } else {
      CmpExact(Tv(1, 0), Tv(0, -d));
    }
  }

  /** Adding one interval to both sides of normalised values preserves every comparison
      if and only if neither sum overflows or both do. */
  lemma AddPreservesCmp(w: Width, a: Tv, b: Tv, t: Tv)
    requires a.In(w) && b.In(w) && t.In(w)
    requires a.Normalised() && b.Normalised() && t.Normalised()
    ensures (forall op :: TimerCmp(Add(w, a, t), Add(w, b, t), op) <==> TimerCmp(a, b, op))
       <==> (AddFits(w, a, t) <==> AddFits(w, b, t))
  {
    var ea := NormalisedAddError(w, a, t);
    var eb := NormalisedAddError(w, b, t);
    var x, y := Add(w, a, t), Add(w, b, t);
    assert x.Total() - y.Total() == a.Total() - b.Total() - (ea - eb) * MILLION;
    forall op
      ensures TimerCmp(x, y, op) <==> Holds(op, x.Total(), y.Total())
      ensures TimerCmp(a, b, op) <==> Holds(op, a.Total(), b.Total())
    {
      CmpIsTotalOrder(x, y, op);
      CmpIsTotalOrder(a, b, op);
    }
    if ea == eb {
      assert x.Total() - y.Total() == a.Total() - b.Total();
    } else {
      WrapReverses(w, a, b, t, ea, eb);
      assert TimerCmp(x, y, Lt) != TimerCmp(a, b, Lt);
    }
  }

  /** The sum of normalised values is normalised and off by nothing or one modulus of
      seconds, upwards or downwards as the interval added is positive or negative. */
  lemma NormalisedAddError(w: Width, a: Tv, t: Tv) returns (e: int)
    requires a.In(w) && t.In(w) && a.Normalised() && t.Normalised()
    ensures Add(w, a, t).Normalised()
    ensures Add(w, a, t).Total() == a.Total() + t.Total() - e * MILLION
    ensures e == 0 || (e == w.Modulus() && t.sec >= 0) || (e == -(w.Modulus() as int) && t.sec < 0)
    ensures e == 0 <==> AddFits(w, a, t)
  {
    var c := NormalisedAdd(w, a, t);
    e := WrapOnce(w, a.sec + t.sec + c);
  }

  /** If only one of two sums overflows, the smaller and the larger change places. */
  lemma WrapReverses(w: Width, a: Tv, b: Tv, t: Tv, ea: int, eb: int)
    requires a.In(w) && b.In(w) && t.In(w) && a.Normalised() && b.Normalised() && t.Normalised()
    requires AddFits(w, a, t) != AddFits(w, b, t)
    requires ea == 0 || (ea == w.Modulus() && t.sec >= 0) || (ea == -(w.Modulus() as int) && t.sec < 0)
    requires eb == 0 || (eb == w.Modulus() && t.sec >= 0) || (eb == -(w.Modulus() as int) && t.sec < 0)
    requires (ea == 0 <==> AddFits(w, a, t)) && (eb == 0 <==> AddFits(w, b, t))
    ensures a.Total() < b.Total() <==> !(a.Total() - b.Total() - (ea - eb) * MILLION < 0)
  {
    SecondsApart(w, a, b);
  }

  lemma SecondsApart(w: Width, a: Tv, b: Tv)
    requires a.In(w) && b.In(w) && a.Normalised() && b.Normalised()
    ensures -(w.Modulus() as int) * MILLION < a.Total() - b.Total() < w.Modulus() * MILLION
  {
  }

  /** a == b if and only if evutil_timerisset fails for a - b; and a < b is the sign of
      the seconds of a - b if and only if the subtraction does not overflow. */
  lemma CmpBySubtraction(w: Width, a: Tv, b: Tv)
    requires a.In(w) && b.In(w) && a.Normalised() && b.Normalised()
    ensures TimerCmp(a, b, Eq) <==> !IsSet(Sub(w, a, b))
    ensures (TimerCmp(a, b, Lt) <==> Sub(w, a, b).sec < 0) <==> SubFits(w, a, b)
  {
    var c := NormalisedSub(w, a, b);
    var e := WrapOnce(w, a.sec - b.sec - c);
  }

  /** evutil_timerisset */
  predicate IsSet(t: Tv)
  {
    t.sec != 0 || t.usec != 0
  }

  /** It holds of every value but the one evutil_timercmp calls equal to zero. */
  lemma IsSetIsNotZero(t: Tv)
    ensures IsSet(t) <==> !TimerCmp(t, Tv(0, 0), Eq)
    ensures -MILLION < t.usec < MILLION ==> (IsSet(t) <==> t.Total() != 0)
  {
  }

  // ----- the macros on variables

  class Timeval {
    var tv_sec: int
    var tv_usec: int

    function Value(): Tv
      reads this
    {
      Tv(tv_sec, tv_usec)
    }

    constructor (sec: int, usec: int)
      ensures Value() == Tv(sec, usec)
    {
      tv_sec, tv_usec := sec, usec;
    }

    /** evutil_timerclear */
    method Clear()
      modifies this
      ensures Value() == Tv(0, 0) && !IsSet(Value())
    {
      tv_usec := 0;
      tv_sec := tv_usec;
    }
  }

  /** evutil_timeradd(tvp, uvp, vvp).  The three variables may be the same. */
  method TimerAdd(w: Width, tvp: Timeval, uvp: Timeval, vvp: Timeval)
    requires tvp.Value().In(w) && uvp.Value().In(w)
    modifies vvp
    ensures vvp.Value() == Add(w, old(tvp.Value()), old(uvp.Value()))
  {
    ghost var a, b := tvp.Value(), uvp.Value();
    vvp.tv_sec := w.Wrap(tvp.tv_sec + uvp.tv_sec);
    vvp.tv_usec := w.Wrap(tvp.tv_usec + uvp.tv_usec);
    assert vvp.tv_sec == w.Wrap(a.sec + b.sec) && vvp.tv_usec == w.Wrap(a.usec + b.usec);
    if vvp.tv_usec >= MILLION {
      vvp.tv_sec := w.Wrap(vvp.tv_sec + 1);
      vvp.tv_usec := w.Wrap(vvp.tv_usec - MILLION);
    }
  }

  lemma AccumulateStep(w: Width, acc: Tv, vs: seq<Tv>, i: nat)
    requires acc.In(w) && acc.Normalised() && i < |vs|
    requires AllNormalised(w, vs)
    ensures Accumulate(w, acc, vs[..i]).In(w)
    ensures Accumulate(w, acc, vs[..i + 1]) == Add(w, Accumulate(w, acc, vs[..i]), vs[i])
  {
    PrefixNormalised(w, vs, i);
    AccumulateExact(w, acc, vs[..i]);
    assert vs[..i + 1][..i] == vs[..i] && vs[..i + 1][i] == vs[i];
  }

  function Values(ts: seq<Timeval>): (vs: seq<Tv>)
    reads ts
    ensures |vs| == |ts| && forall i :: 0 <= i < |ts| ==> vs[i] == ts[i].Value()
  {
    if ts == [] then [] else Values(ts[..|ts| - 1]) + [ts[|ts| - 1].Value()]
  }

  /** A caller's loop: one variable is summed into in place, as vvp and tvp at once. */
  method AccumulateInPlace(w: Width, acc: Timeval, ts: seq<Timeval>)
    requires acc.Value().In(w) && acc.Value().Normalised() && acc !in ts
    requires forall t :: t in ts ==> t.Value().In(w) && t.Value().Normalised()
    modifies acc
    ensures acc.Value() == Accumulate(w, old(acc.Value()), old(Values(ts)))
  {
    ghost var vs := Values(ts);
    assert AllNormalised(w, vs);
    for i := 0 to |ts|
      invariant acc.Value() == Accumulate(w, old(acc.Value()), vs[..i])
    {
      AccumulateStep(w, old(acc.Value()), vs, i);
      assert ts[i] in ts && ts[i].Value() == vs[i];
      TimerAdd(w, acc, ts[i], acc);
    }
    assert vs[..|ts|] == vs;
  }

  /** evutil_timersub(tvp, uvp, vvp).  The three variables may be the same. */
  method TimerSub(w: Width, tvp: Timeval, uvp: Timeval, vvp: Timeval)
    requires tvp.Value().In(w) && uvp.Value().In(w)
    modifies vvp
    ensures vvp.Value() == Sub(w, old(tvp.Value()), old(uvp.Value()))
  {
    ghost var a, b := tvp.Value(), uvp.Value();
    vvp.tv_sec := w.Wrap(tvp.tv_sec - uvp.tv_sec);
    vvp.tv_usec := w.Wrap(tvp.tv_usec - uvp.tv_usec);
    assert vvp.tv_sec == w.Wrap(a.sec - b.sec) && vvp.tv_usec == w.Wrap(a.usec - b.usec);
    if vvp.tv_usec < 0 {
      vvp.tv_sec := w.Wrap(vvp.tv_sec - 1);
      vvp.tv_usec := w.Wrap(vvp.tv_usec + MILLION);
    }
  }
}
