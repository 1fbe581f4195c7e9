/** MY_ALIGN of my_global.h: rounding up to a power of two with a bit mask. */
module Align {
  import opened Machine

  /** MY_ALIGN(A, L) for operands of an unsigned type of w bits. */
  function MyAlign(w: nat, A: nat, L: nat): nat
    requires A < Pow2(w) && 0 < L <= Pow2(w)
  {
    BitAnd((A + L - 1) % Pow2(w), BitNot(w, L - 1))
  }

  /** ALIGN_SIZE(A), whose L is sizeof(double), a size_t of s bits.  The mask is
      complemented in s bits and only then widened to the w bits of A. */
  function AlignSize(w: nat, s: nat, A: nat): nat
    requires 3 <= s <= w && A < Pow2(w)
  {
    Pow2Monotone(3, s);
    assert Pow2(3) == 8;
    BitAnd((A + 8 - 1) % Pow2(w), BitNot(s, 8 - 1))
  }

  ghost predicate IsLeastMultiple(r: int, A: int, L: int)
    requires L > 0
  {
    && r % L == 0 && r >= A
    && forall q :: q % L == 0 && q >= A ==> r <= q
  }

  /** Rounding by division, as skip_trailing_space computes start_words. */
  function RoundUp(A: int, L: int): int
    requires L > 0
  {
    RoundDown(A + L - 1, L)
  }

  lemma RoundDownBounds(x: int, d: int)
    requires d > 0
    ensures RoundDown(x, d) % d == 0 && x - d < RoundDown(x, d) <= x
    ensures x >= 0 ==> RoundDown(x, d) >= 0
  {
    var q := x / d;
    assert x == d * q + x % d;
    assert RoundDown(x, d) == d * q;
    DivModUnique(d * q, d, q, 0);
    if x >= 0 && q < 0 {
      MulAtLeast(d, -q);
    }
  }

  /** Division rounding is the least multiple, and only the least multiple. */
  lemma RoundUpIsLeast(A: int, L: int, r: int)
    requires L > 0
    ensures IsLeastMultiple(r, A, L) <==> r == RoundUp(A, L)
  {
    var up := RoundUp(A, L);
    RoundDownBounds(A + L - 1, L);
    forall q | q % L == 0 && q >= A
      ensures up <= q
    {
      NoMultipleBetween(q, up, L);
    }
  }

  lemma NoMultipleBetween(q: int, up: int, L: int)
    requires L > 0 && q % L == 0 && up % L == 0 && q > up - L
    ensures q >= up
  {
    assert q == L * (q / L) && up == L * (up / L);
    if q < up {
      assert L * (q / L - up / L) == q - up;
      SmallMultipleIsZero(L, q / L - up / L);
    }
  }

  lemma MyAlignIsRoundDown(w: nat, s: nat, x: nat, k: nat)
    requires k <= s
    ensures Pow2(k) > 0 && Pow2(s) > 0 && Pow2(k) <= Pow2(s)
    ensures BitAnd(x, BitNot(s, Pow2(k) - 1)) == RoundDown(x % Pow2(s), Pow2(k))
  {
    HighMask(s, k, x);
  }

  /** Main result on MY_ALIGN, for every width and every power of two: without
      overflow of A + L - 1 it is the least multiple of L not below A, which is also
      what division rounding gives; with overflow it is 0, and then no multiple of L
      not below A fits in w bits at all. */
  lemma MyAlignCorrect(w: nat, A: nat, k: nat)
    requires k <= w && A < Pow2(w)
    ensures 0 < Pow2(k) <= Pow2(w)
    ensures A + Pow2(k) - 1 < Pow2(w) ==> MyAlign(w, A, Pow2(k)) == RoundUp(A, Pow2(k))
    ensures A + Pow2(k) - 1 >= Pow2(w) ==> MyAlign(w, A, Pow2(k)) == 0 && RoundUp(A, Pow2(k)) >= Pow2(w)
    ensures IsLeastMultiple(MyAlign(w, A, Pow2(k)), A, Pow2(k)) <==> A + Pow2(k) - 1 < Pow2(w)
  {
    var L := Pow2(k);
    Pow2Positive(k);
    Pow2Monotone(k, w);
    MyAlignCases(w, A, k);
    RoundUpIsLeast(A, L, MyAlign(w, A, L));
    RoundDownBounds(A + L - 1, L);
  }

  lemma MyAlignCases(w: nat, A: nat, k: nat)
    requires k <= w && A < Pow2(w)
    ensures 0 < Pow2(k) <= Pow2(w)
    ensures A + Pow2(k) - 1 < Pow2(w) ==> MyAlign(w, A, Pow2(k)) == RoundUp(A, Pow2(k))
    ensures A + Pow2(k) - 1 >= Pow2(w) ==> MyAlign(w, A, Pow2(k)) == 0 && RoundUp(A, Pow2(k)) >= Pow2(w)
  {
    var L, M := Pow2(k), Pow2(w);
    var x := A + L - 1;
    MyAlignIsRoundDown(w, w, x % M, k);
    ModTwice(x, M);
    if x < M {
      DivModUnique(x, M, 0, x);
    } else {
      DivModUnique(x, M, 1, x - M);
      Pow2Divides(k, w);
      Wrapped(x, L, M);
    }
  }

  /** Past a multiple M of L by less than L: the residue rounds down to 0, the number
      itself to at least M. */
  lemma Wrapped(x: nat, L: nat, M: nat)
    requires 0 < L <= M && M % L == 0 && M <= x < M + L - 1
    ensures RoundDown(x - M, L) == 0 && RoundDown(x, L) >= M
  {
    DivModUnique(x - M, L, 0, x - M);
    RoundDownBounds(x, L);
    NoMultipleBetween(RoundDown(x, L), M, L);
  }

  lemma ModTwice(x: nat, m: nat)
    requires m > 0
    ensures x % m % m == x % m
  {
  }

  lemma Pow2Divides(k: nat, w: nat)
    requires k <= w
    ensures Pow2(k) > 0 && Pow2(w) % Pow2(k) == 0
  {
    Pow2Positive(k);
    Pow2Add(k, w - k);
    DivModUnique(Pow2(w), Pow2(k), Pow2(w - k), 0);
  }

  /** Aligning is idempotent for every operand: an overflowed result is 0, which is
      aligned. */
  lemma MyAlignIdempotent(w: nat, A: nat, k: nat)
    requires k <= w && A < Pow2(w)
    ensures 0 < Pow2(k) <= Pow2(w) && MyAlign(w, A, Pow2(k)) < Pow2(w)
    ensures MyAlign(w, MyAlign(w, A, Pow2(k)), Pow2(k)) == MyAlign(w, A, Pow2(k))
  {
    var L, M := Pow2(k), Pow2(w);
    MyAlignCorrect(w, A, k);
    MyAlignBounds(w, A, k);
    var a := MyAlign(w, A, L);
    MyAlignCorrect(w, a, k);
    Pow2Divides(k, w);
    if a + L - 1 >= M {
      NoMultipleBetween(a, M, L);
    }
    RoundUpIsLeast(a, L, a);
  }

  /** Results are multiples of L below 2^w, at most A + L - 1, and not below A unless
      A + L - 1 overflowed. */
  lemma MyAlignBounds(w: nat, A: nat, k: nat)
    requires k <= w && A < Pow2(w)
    ensures 0 < Pow2(k) <= Pow2(w)
    ensures MyAlign(w, A, Pow2(k)) % Pow2(k) == 0 && MyAlign(w, A, Pow2(k)) < Pow2(w)
    ensures A + Pow2(k) - 1 < Pow2(w) ==> A <= MyAlign(w, A, Pow2(k)) < A + Pow2(k)
  {
    MyAlignCorrect(w, A, k);
    RoundDownBounds(A + Pow2(k) - 1, Pow2(k));
  }

  /** Aligning keeps the order of A <= B if and only if B does not overflow, or A is 0
      or overflows too. */
  lemma MyAlignMonotone(w: nat, A: nat, B: nat, k: nat)
    requires k <= w && A <= B < Pow2(w)
    ensures 0 < Pow2(k) <= Pow2(w)
    ensures MyAlign(w, A, Pow2(k)) <= MyAlign(w, B, Pow2(k)) <==>
      B + Pow2(k) - 1 < Pow2(w) || A == 0 || A + Pow2(k) - 1 >= Pow2(w)
  {
    var L, M := Pow2(k), Pow2(w);
    MyAlignCorrect(w, A, k);
    MyAlignCorrect(w, B, k);
    MyAlignBounds(w, A, k);
    MyAlignBounds(w, B, k);
    if B + L - 1 < M {
      RoundUpIsLeast(A, L, MyAlign(w, A, L));
      assert MyAlign(w, B, L) >= A;
    } else if A == 0 {
      RoundUpIsLeast(0, L, MyAlign(w, 0, L));
    }
  }

  /** ALIGN_SIZE rounds up correctly exactly when the rounded size still fits in the
      s bits of size_t: a wider A loses its upper bits to the mask. */
  lemma AlignSizeCorrect(w: nat, s: nat, A: nat)
    requires 3 <= s <= w && A < Pow2(w)
    ensures IsLeastMultiple(AlignSize(w, s, A), A, 8) <==> RoundUp(A, 8) < Pow2(s)
  {
    AlignSizeIsRoundDown(w, s, A);
    RoundUpIsLeast(A, 8, AlignSize(w, s, A));
    assert Pow2(3) == 8;
    Pow2Divides(3, s);
    Pow2Positive(s);
    Pow2Monotone(s, w);
    RoundDownTwice(A + 7, Pow2(s), Pow2(w));
  }

  lemma AlignSizeIsRoundDown(w: nat, s: nat, A: nat)
    requires 3 <= s <= w && A < Pow2(w)
    ensures Pow2(w) > 0 && Pow2(s) > 0
    ensures AlignSize(w, s, A) == RoundDown((A + 7) % Pow2(w) % Pow2(s), 8)
  {
    Pow2Positive(w);
    assert Pow2(3) == 8;
    MyAlignIsRoundDown(w, s, (A + 7) % Pow2(w), 3);
  }

  /** Rounding what two reductions leave of x is rounding x exactly if the result is
      below the smaller modulus. */
  lemma RoundDownTwice(x: nat, S: nat, M: nat)
    requires 0 < S <= M && S % 8 == 0
    ensures RoundDown(x % M % S, 8) == RoundDown(x, 8) <==> RoundDown(x, 8) < S
  {
    if RoundDown(x, 8) < S {
      BelowMultiple(x, S);
      DivModUnique(x, M, 0, x);
      DivModUnique(x, S, 0, x);
    } else {
      DivModIdentity(x % M, S);
      RoundDownBounds(x % M % S, 8);
    }
  }

  lemma BelowMultiple(x: nat, S: nat)
    requires S > 0 && S % 8 == 0 && RoundDown(x, 8) < S
    ensures x < S
  {
  }
}
