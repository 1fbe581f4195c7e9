/** Machine integers as mathematical integers with explicit reduction, plus the
    bitwise operators the C sources use, defined bit by bit on naturals. */
module Machine {

  type byte = x: int | 0 <= x < 0x100
  type uint16 = x: int | 0 <= x < 0x1_0000
  type uint32 = x: int | 0 <= x < 0x1_0000_0000
  type uint64 = x: int | 0 <= x < 0x1_0000_0000_0000_0000
  type int16 = x: int | -0x8000 <= x < 0x8000
  type int32 = x: int | -0x8000_0000 <= x < 0x8000_0000
  type int64 = x: int | -0x8000_0000_0000_0000 <= x < 0x8000_0000_0000_0000

  /** Byte order of the machine that runs the code. */
  datatype Host = Little | Big

  // Conversions to an unsigned type reduce modulo 2^N; conversions to a signed
  // type take the two's-complement representative.
  function ToByte(x: int): byte { x % 0x100 }
  function ToU16(x: int): uint16 { x % 0x1_0000 }
  function ToU32(x: int): uint32 { x % 0x1_0000_0000 }
  function ToU64(x: int): uint64 { x % 0x1_0000_0000_0000_0000 }

  function TwosComplement(modulus: nat, x: int): int
    requires modulus > 0
  {
    var u := x % modulus;
    if 2 * u < modulus then u else u - modulus
  }

  function ToS16(x: int): int16 { TwosComplement(0x1_0000, x) }
  function ToS32(x: int): int32 { TwosComplement(0x1_0000_0000, x) }
  function ToS64(x: int): int64 { TwosComplement(0x1_0000_0000_0000_0000, x) }

  function Pow2(n: nat): nat
  {
    if n == 0 then 1 else 2 * Pow2(n - 1)
  }

  lemma {:induction false} Pow2Positive(n: nat)
    ensures Pow2(n) > 0
  {
    if n != 0 {
      Pow2Positive(n - 1);
    }
  }

  lemma {:induction false} Pow2Add(m: nat, n: nat)
    ensures Pow2(m + n) == Pow2(m) * Pow2(n)
  {
    if m == 0 {
    } else {
      Pow2Add(m - 1, n);
      assert Pow2(m + n) == 2 * Pow2(m - 1 + n);
      assert 2 * (Pow2(m - 1) * Pow2(n)) == (2 * Pow2(m - 1)) * Pow2(n);
    }
  }

  lemma {:induction false} Pow2Monotone(m: nat, n: nat)
    requires m <= n
    ensures Pow2(m) <= Pow2(n)
  {
    if m < n {
      Pow2Monotone(m, n - 1);
      Pow2Positive(n - 1);
    }
  }

  /** `x & y` */
  function BitAnd(x: nat, y: nat): nat
  {
    if x == 0 then 0 else (x % 2) * (y % 2) + 2 * BitAnd(x / 2, y / 2)
  }

  /** `x | y` */
  function BitOr(x: nat, y: nat): nat
  {
    if x == 0 then y else (if x % 2 == 1 || y % 2 == 1 then 1 else 0) + 2 * BitOr(x / 2, y / 2)
  }

  /** `~x` on a word of `bits` bits */
  function BitNot(bits: nat, x: nat): nat
    requires x < Pow2(bits)
  {
    Pow2(bits) - 1 - x
  }

  /** Numbers with no common one bit: `|` is `+`. */
  lemma {:induction false} OrIsSum(k: nat, hi: nat, lo: nat)
    requires lo < Pow2(k)
    ensures BitOr(hi * Pow2(k), lo) == hi * Pow2(k) + lo
  {
    if k == 0 {
      OrZero(hi);
    } else if hi != 0 {
      var p := Pow2(k - 1);
      var x := hi * Pow2(k);
      Pow2Positive(k - 1);
      assert x == 2 * (hi * p) by { assert hi * (2 * p) == 2 * (hi * p); }
      assert hi * p > 0;
      assert x % 2 == 0 && x / 2 == hi * p;
      OrIsSum(k - 1, hi, lo / 2);
      assert BitOr(x, lo) == lo % 2 + 2 * (hi * p + lo / 2);
    }
  }

  lemma {:induction false} OrZero(x: nat)
    ensures BitOr(x, 0) == x
  {
    if x != 0 {
      OrZero(x / 2);
    }
  }

  /** The greatest multiple of d that is not above x. */
  function RoundDown(x: int, d: int): int
    requires d > 0
  {
    x / d * d
  }

  /** Masking with the ones of positions k..bits-1 clears the low k bits, that is,
      it rounds down to a multiple of 2^k; bits above the mask are lost. */
  lemma {:induction false} HighMask(bits: nat, k: nat, x: nat)
    requires k <= bits
    ensures Pow2(k) > 0 && Pow2(bits) > 0 && Pow2(bits) >= Pow2(k)
    ensures BitAnd(x, Pow2(bits) - Pow2(k)) == RoundDown(x % Pow2(bits), Pow2(k))
    decreases bits
  {
    Pow2Positive(k);
    Pow2Positive(bits);
    Pow2Monotone(k, bits);
    if k == 0 {
      LowMask(bits, x);
      assert RoundDown(x % Pow2(bits), 1) == x % Pow2(bits);
    } else {
      var P, M := Pow2(k - 1), Pow2(bits - 1);
      HighMask(bits - 1, k - 1, x / 2);
      AndEven(x, M - P);
      RoundDownDouble(x, M, P);
      assert Pow2(bits) == 2 * M && Pow2(k) == 2 * P;
    }
  }

  lemma AndEven(x: nat, y: nat)
    ensures BitAnd(x, 2 * y) == 2 * BitAnd(x / 2, y)
  {
    assert 2 * y % 2 == 0 && 2 * y / 2 == y;
  }

  lemma RoundDownDouble(x: nat, m: nat, p: nat)
    requires m > 0 && p > 0
    ensures RoundDown(x % (2 * m), 2 * p) == 2 * RoundDown(x / 2 % m, p)
  {
    ModDouble(x, m);
    DivDouble(x % (2 * m), p);
    var q := x / 2 % m / p;
    assert q * (2 * p) == 2 * (q * p);
  }

  lemma {:induction false} LowMask(bits: nat, x: nat)
    ensures Pow2(bits) > 0
    ensures BitAnd(x, Pow2(bits) - 1) == x % Pow2(bits)
  {
    Pow2Positive(bits);
    if x == 0 {
    } else if bits == 0 {
      AndZero(x);
    } else {
      var M := Pow2(bits - 1);
      Pow2Positive(bits - 1);
      LowMask(bits - 1, x / 2);
      assert (2 * M - 1) % 2 == 1 && (2 * M - 1) / 2 == M - 1;
      ModDouble(x, M);
    }
  }

  lemma {:induction false} AndZero(x: nat)
    ensures BitAnd(x, 0) == 0
  {
    if x != 0 {
      AndZero(x / 2);
    }
  }

  /** A two-digit number: a, then b of base p and r of base c. */
  lemma TwoDigits(c: nat, p: nat, a: int, b: int, r: int)
    requires 0 <= b < p && 0 <= r < c
    ensures 0 <= c * b + r < c * p
    ensures c * (p * a + b) + r == (c * p) * a + (c * b + r)
  {
    MulMonotone(c, b, p - 1);
    assert c * (p - 1) == c * p - c;
    MulAssociative(c, p, a);
    assert c * (p * a + b) == c * (p * a) + c * b;
  }

  lemma MulMonotone(c: nat, x: int, y: int)
    requires x <= y
    ensures c * x <= c * y
  {
  }

  lemma MulAssociative(x: int, y: int, z: int)
    ensures x * (y * z) == (x * y) * z
  {
  }

  lemma DivModIdentity(x: int, d: int)
    requires d > 0
    ensures x == d * (x / d) + x % d && 0 <= x % d < d
  {
  }

  /** Dividing by c*p in one step or two. */
  lemma DivScale(x: int, c: nat, p: nat)
    requires c > 0 && p > 0
    ensures c * p > 0
    ensures x / (c * p) == x / c / p
    ensures x % (c * p) == x % c + c * (x / c % p)
  {
    DivModIdentity(x, c);
    DivModIdentity(x / c, p);
    TwoDigits(c, p, x / c / p, x / c % p, x % c);
    DivModUnique(x, c * p, x / c / p, c * (x / c % p) + x % c);
  }

  /** Reducing modulo a multiple of a first does not change the remainder modulo a. */
  lemma ModOfMod(x: int, a: nat, b: nat)
    requires a > 0 && b > 0
    ensures a * b > 0 && x % (a * b) % a == x % a
  {
    DivScale(x, a, b);
    DivModUnique(x % (a * b), a, x / a % b, x % a);
  }

  /** A digit (of base b, at weight a) of a residue is the digit of the number. */
  lemma DigitOfResidue(x: int, a: nat, b: nat, c: nat)
    requires a > 0 && b > 0 && c > 0
    ensures a * (b * c) > 0 && x % (a * (b * c)) / a % b == x / a % b
  {
    DivScale(x, a, b * c);
    var w := x / a % (b * c);
    DivModIdentity(x, a);
    DivModUnique(x % (a * (b * c)), a, w, x % a);
    ModOfMod(x / a, b, c);
  }

  lemma ModDouble(x: nat, m: nat)
    requires m > 0
    ensures x % (2 * m) == x % 2 + 2 * (x / 2 % m)
    ensures x % (2 * m) / 2 == x / 2 % m
  {
    DivScale(x, 2, m);
  }

  lemma MulAtLeast(d: int, k: int)
    requires d > 0 && k >= 1
    ensures d * k >= d
  {
  }

  lemma SmallMultipleIsZero(d: int, k: int)
    requires d > 0 && -d < d * k < d
    ensures k == 0
  {
  }

  lemma DivModUnique(x: int, d: int, q: int, r: int)
    requires d > 0 && 0 <= r < d && x == d * q + r
    ensures x / d == q && x % d == r
  {
    var q', r' := x / d, x % d;
    assert d * (q - q') == r' - r;
    SmallMultipleIsZero(d, q - q');
  }

  lemma DivDouble(x: nat, p: nat)
    requires p > 0
    ensures x / (2 * p) == x / 2 / p
  {
    DivScale(x, 2, p);
  }

  /** Reducing twice is reducing once: a signed reading of a sum does not depend on
      how often the partial sums were reduced. */
  lemma TwosComplementUnique(modulus: nat, x: int, y: int)
    requires modulus > 0 && modulus % 2 == 0
    requires x % modulus == y % modulus
    requires -(modulus / 2) <= y < modulus / 2
    ensures TwosComplement(modulus, x) == y
  {
    if y >= 0 {
      DivModUnique(y, modulus, 0, y);
    } else {
      DivModUnique(y, modulus, -1, y + modulus);
    }
  }
}
