/** Conversions between int64 and double (binary64 of IEEE 754-2008), on bit
    patterns, with the exact value of a double kept as an integer: every double is
    a multiple of 2^-1074, and `Scaled` counts how many. */
module Float {

  import opened Prelude
  import opened Bytes
  import opened BinarySort
  import opened IntegerArithmetic

  function Pow2(n: nat): (p: nat)
    ensures p >= 1
  {
    if n == 0 then 1 else 2 * Pow2(n - 1)
  }

  /** The multiple of 2^-1074 that a magnitude stands for: 52 fraction bits under
      an exponent, with a hidden bit unless the exponent is 0. Infinity comes out as
      2^1024, above every finite double. */
  function ScaledMagnitude(m: nat): nat {
    var e, f := m / 0x10_0000_0000_0000, m % 0x10_0000_0000_0000;
    if e == 0 then f else (0x10_0000_0000_0000 + f) * Pow2(e - 1)
  }

  function Scaled(b: Bits): int {
    if Negative(b) then 0 - ScaledMagnitude(Magnitude(b)) else ScaledMagnitude(Magnitude(b))
  }

  // ---------------------------------------------------------- int64 to double

  /** How many low bits of n are too many for a 53-bit significand. */
  function ExcessBits(n: nat): nat {
    if n < 0x20_0000_0000_0000 then 0 else 1 + ExcessBits(n / 2)
  }

  /** How far n must be shifted up for its top bit to be the hidden one. */
  function MissingBits(n: nat): nat
    requires 0 < n
    decreases 0x20_0000_0000_0000 - n
  {
    if n >= 0x10_0000_0000_0000 then 0 else 1 + MissingBits(2 * n)
  }

  /** n over 2^s, rounded to nearest, ties to even. */
  function RoundHalfEven(n: nat, s: nat): nat {
    var q, r := n / Pow2(s), n % Pow2(s);
    if 2 * r > Pow2(s) || (2 * r == Pow2(s) && q % 2 == 1) then q + 1 else q
  }

  /** The magnitude of float64(n). */
  function MagnitudeOf(n: nat): int {
    if n == 0 then 0
    else if n < 0x10_0000_0000_0000 then
      var k := MissingBits(n);
      (1074 - k) * 0x10_0000_0000_0000 + n * Pow2(k)
    else
      var s := ExcessBits(n);
      (1074 + s) * 0x10_0000_0000_0000 + RoundHalfEven(n, s)
  }

  lemma {:induction false} ExcessBitsBound(n: nat, w: nat)
    requires n < 0x20_0000_0000_0000 * Pow2(w)
    ensures ExcessBits(n) <= w
    ensures n >= 0x10_0000_0000_0000 ==>
              0x10_0000_0000_0000 <= n / Pow2(ExcessBits(n)) < 0x20_0000_0000_0000
  {
    if n >= 0x20_0000_0000_0000 {
      ExcessBitsBound(n / 2, w - 1);
      DivTwice(n, Pow2(ExcessBits(n / 2)));
    }
  }

  lemma DivTwice(n: nat, p: nat)
    requires p > 0
    ensures n / (2 * p) == n / 2 / p
  {
    var q := n / 2 / p;
    var r := n / 2 % p;
    assert n / 2 == p * q + r;
    var m := 2 * r + n % 2;
    assert n == 2 * p * q + m && m < 2 * p;
    QuotientUnique(n, 2 * p, q, m);
  }

  lemma {:induction false} MissingBitsBound(n: nat, w: nat)
    requires 0 < n && n * Pow2(w) >= 0x10_0000_0000_0000 && n < 0x20_0000_0000_0000
    ensures MissingBits(n) <= w
    ensures 0x10_0000_0000_0000 <= n * Pow2(MissingBits(n)) < 0x20_0000_0000_0000
    decreases w
  {
    if n < 0x10_0000_0000_0000 {
      assert w > 0;
      assert 2 * n * Pow2(w - 1) == n * Pow2(w);
      MissingBitsBound(2 * n, w - 1);
      assert 2 * n * Pow2(MissingBits(2 * n)) == n * Pow2(MissingBits(n));
    }
  }

  lemma Pow2Of11()
    ensures Pow2(11) == 2048
  {
    assert Pow2(6) == 64;
  }

  lemma Pow2Of52()
    ensures Pow2(11) == 2048 && Pow2(52) == 0x10_0000_0000_0000
  {
    assert Pow2(10) == 1024;
    assert Pow2(20) == 0x10_0000;
    assert Pow2(30) == 0x4000_0000;
    assert Pow2(40) == 0x100_0000_0000;
    assert Pow2(50) == 0x4_0000_0000_0000;
  }

  lemma MagnitudeBound(n: nat)
    requires n <= 0x8000_0000_0000_0000
    ensures 0 <= MagnitudeOf(n) < 0x7FF0_0000_0000_0000
  {
    Pow2Of52();
    if 0 < n < 0x10_0000_0000_0000 {
      MissingBitsBound(n, 52);
    } else if n > 0 {
      ExcessBitsBound(n, 11);
    }
  }

  /** float64(x) for an int64 x. */
  function FloatOfInt(x: Int64): (b: Bits)
    ensures !IsNaN(b) && (Key(b) < 0 <==> x < 0 && Key(b) != 0)
  {
    var n: nat := if x < 0 then 0 - x else x;
    MagnitudeBound(n);
    if x < 0 then 0x8000_0000_0000_0000 + MagnitudeOf(n) else MagnitudeOf(n)
  }

  // ------------------------------------------------------- exact arithmetic

  /** One, as a multiple of 2^-1074. */
  const BIAS: nat := 1074

  lemma {:induction false} Pow2Add(a: nat, b: nat)
    ensures Pow2(a + b) == Pow2(a) * Pow2(b)
  {
    if a > 0 { Pow2Add(a - 1, b); }
  }

  lemma {:induction false} Pow2Grows(a: nat, b: nat)
    requires a <= b
    ensures Pow2(a) <= Pow2(b)
  {
    if a < b { Pow2Grows(a, b - 1); }
  }

  lemma Digits(e: nat, f: nat)
    requires f < 0x10_0000_0000_0000
    ensures (e * 0x10_0000_0000_0000 + f) / 0x10_0000_0000_0000 == e
    ensures (e * 0x10_0000_0000_0000 + f) % 0x10_0000_0000_0000 == f
  {
  }

  /** A magnitude by its exponent and its fraction with the hidden bit. */
  lemma ScaledNormal(m: nat, e: nat, n: nat)
    requires 0x10_0000_0000_0000 <= n < 0x20_0000_0000_0000 && m == e * 0x10_0000_0000_0000 + n
    ensures ScaledMagnitude(m) == n * Pow2(e)
  {
    Digits(e + 1, n - 0x10_0000_0000_0000);
  }

  /** The carry out of the fraction moves the exponent. */
  lemma ScaledCarry(m: nat, e: nat)
    requires m == e * 0x10_0000_0000_0000 + 0x20_0000_0000_0000
    ensures ScaledMagnitude(m) == 0x20_0000_0000_0000 * Pow2(e)
  {
    Digits(e + 2, 0);
    assert Pow2(e + 1) == 2 * Pow2(e);
  }

  /** What n is rounded to. */
  function Rounded(n: nat): nat {
    if n < 0x20_0000_0000_0000 then n else RoundHalfEven(n, ExcessBits(n)) * Pow2(ExcessBits(n))
  }

  lemma SmallScaled(n: nat, bias: nat)
    requires 0 < n < 0x10_0000_0000_0000 && 52 <= bias
    ensures MissingBits(n) <= 52
    ensures ScaledMagnitude((bias - MissingBits(n)) * 0x10_0000_0000_0000 + n * Pow2(MissingBits(n))) == n * Pow2(bias)
  {
    Pow2Of52();
    MissingBitsBound(n, 52);
    var k := MissingBits(n);
    ScaledNormal((bias - k) * 0x10_0000_0000_0000 + n * Pow2(k), bias - k, n * Pow2(k));
    ShiftedProduct(n, k, bias);
  }

  lemma ShiftedProduct(n: nat, k: nat, bias: nat)
    requires k <= bias
    ensures n * Pow2(k) * Pow2(bias - k) == n * Pow2(bias)
  {
    Pow2Add(k, bias - k);
    MultiplyThree(n, Pow2(k), Pow2(bias - k));
  }

  lemma MultiplyThree(a: int, b: int, c: int)
    ensures a * b * c == a * (b * c)
  {
  }

  lemma RoundBounds(n: nat)
    requires 0x10_0000_0000_0000 <= n <= 0x8000_0000_0000_0000
    ensures 0x10_0000_0000_0000 <= RoundHalfEven(n, ExcessBits(n)) <= 0x20_0000_0000_0000
  {
    Pow2Of52();
    ExcessBitsBound(n, 11);
  }

  lemma LargeScaled(n: nat, bias: nat, m: nat)
    requires 0x10_0000_0000_0000 <= n <= 0x8000_0000_0000_0000
    requires m == (bias + ExcessBits(n)) * 0x10_0000_0000_0000 + RoundHalfEven(n, ExcessBits(n))
    ensures ScaledMagnitude(m) == RoundHalfEven(n, ExcessBits(n)) * Pow2(ExcessBits(n)) * Pow2(bias)
  {
    RoundBounds(n);
    var s, q := ExcessBits(n), RoundHalfEven(n, ExcessBits(n));
    if q < 0x20_0000_0000_0000 { ScaledNormal(m, bias + s, q); } else { ScaledCarry(m, bias + s); }
    Pow2Add(s, bias);
    MultiplyThree(q, Pow2(s), Pow2(bias));
  }

  /** The double of an integer is a whole number, its rounding. */
  lemma ScaledOfInt(n: nat)
    requires n <= 0x8000_0000_0000_0000
    ensures MagnitudeOf(n) >= 0 && ScaledMagnitude(MagnitudeOf(n)) == Rounded(n) * Pow2(BIAS)
  {
    MagnitudeBound(n);
    if 0 < n < 0x10_0000_0000_0000 {
      SmallScaled(n, BIAS);
    } else if 0 < n {
      LargeScaled(n, BIAS, MagnitudeOf(n));
      if n < 0x20_0000_0000_0000 { RoundNothing(n); }
    }
  }

  lemma RoundNothing(n: nat)
    requires n < 0x20_0000_0000_0000
    ensures ExcessBits(n) == 0 && RoundHalfEven(n, 0) == n && Pow2(0) == 1
  {
  }

  // ------------------------------------------------- the order of magnitudes

  lemma ScaledStep(m: nat)
    ensures ScaledMagnitude(m) < ScaledMagnitude(m + 1)
  {
    var e, f := m / 0x10_0000_0000_0000, m % 0x10_0000_0000_0000;
    if f + 1 < 0x10_0000_0000_0000 {
      assert (m + 1) / 0x10_0000_0000_0000 == e && (m + 1) % 0x10_0000_0000_0000 == f + 1;
      if e > 0 { Smaller(0x10_0000_0000_0000 + f, 0x10_0000_0000_0000 + f + 1, Pow2(e - 1)); }
    } else {
      assert (m + 1) / 0x10_0000_0000_0000 == e + 1 && (m + 1) % 0x10_0000_0000_0000 == 0;
      if e > 0 { Smaller(0x10_0000_0000_0000 + f, 0x20_0000_0000_0000, Pow2(e - 1)); }
    }
  }

  lemma Smaller(a: int, b: int, p: nat)
    requires a < b && p > 0
    ensures a * p < b * p
  {
  }

  lemma {:induction false} ScaledMonotone(m: nat, n: nat)
    requires m < n
    ensures ScaledMagnitude(m) < ScaledMagnitude(n)
    decreases n
  {
    ScaledStep(n - 1);
    if m < n - 1 { ScaledMonotone(m, n - 1); }
  }

  /** Doubles are in the order of their exact values. */
  lemma ScaledOrder(a: Bits, b: Bits)
    ensures Sign(Key(a) - Key(b)) == Sign(Scaled(a) - Scaled(b))
  {
    var m, n := Magnitude(a), Magnitude(b);
    if m < n { ScaledMonotone(m, n); }
    if n < m { ScaledMonotone(n, m); }
    assert ScaledMagnitude(0) == 0;
    if 0 < m { ScaledMonotone(0, m); }
    if 0 < n { ScaledMonotone(0, n); }
  }

  // -------------------------------------------- doubles that are whole numbers

  /** A double of 2^53 or more is a whole number, with 53 significant bits. */
  lemma LargeIsWhole(m: nat, bias: nat) returns (n: nat, t: nat)
    requires ScaledMagnitude(m) >= 0x20_0000_0000_0000 * Pow2(bias)
    ensures 0x10_0000_0000_0000 <= n < 0x20_0000_0000_0000 && ScaledMagnitude(m) == n * Pow2(t) * Pow2(bias)
  {
    var e, f := m / 0x10_0000_0000_0000, m % 0x10_0000_0000_0000;
    n := 0x10_0000_0000_0000 + f;
    if e <= bias {
      SmallExponent(m, bias);
    } else {
      t := e - 1 - bias;
      Pow2Add(t, bias);
      MultiplyThree(n, Pow2(t), Pow2(bias));
    }
  }

  lemma SmallExponent(m: nat, bias: nat)
    requires m / 0x10_0000_0000_0000 <= bias
    ensures ScaledMagnitude(m) < 0x20_0000_0000_0000 * Pow2(bias)
  {
    var e, f := m / 0x10_0000_0000_0000, m % 0x10_0000_0000_0000;
    if e > 0 {
      Pow2Grows(e - 1, bias);
      Smaller(0x10_0000_0000_0000 + f, 0x20_0000_0000_0000, Pow2(e - 1));
    }
  }

  lemma {:induction false} ExcessOfShifted(n: nat, t: nat)
    requires 0x10_0000_0000_0000 <= n < 0x20_0000_0000_0000
    ensures ExcessBits(n * Pow2(t)) == t && n * Pow2(t) >= n
  {
    if t > 0 {
      ExcessOfShifted(n, t - 1);
      assert n * Pow2(t) == 2 * (n * Pow2(t - 1));
    }
  }

  lemma RoundExact(n: nat, t: nat)
    ensures RoundHalfEven(n * Pow2(t), t) == n
  {
    QuotientUnique(n * Pow2(t), Pow2(t), n, 0);
  }

  lemma Cancel(a: int, b: int, p: nat)
    requires p > 0 && a * p == b * p
    ensures a == b
  {
    if a < b { Smaller(a, b, p); }
    if b < a { Smaller(b, a, p); }
  }

  /** A whole number that a double can hold is not rounded. */
  lemma WholeIsExact(m: nat, k: nat, bias: nat)
    requires ScaledMagnitude(m) == k * Pow2(bias)
    ensures Rounded(k) == k
  {
    if k >= 0x20_0000_0000_0000 {
      NotLarger(0x20_0000_0000_0000, k, Pow2(bias));
      var n, t := LargeIsWhole(m, bias);
      Cancel(k, n * Pow2(t), Pow2(bias));
      RoundedShifted(n, t);
    }
  }

  lemma RoundedShifted(n: nat, t: nat)
    requires 0x10_0000_0000_0000 <= n < 0x20_0000_0000_0000
    ensures Rounded(n * Pow2(t)) == n * Pow2(t)
  {
    ExcessOfShifted(n, t);
    RoundExact(n, t);
  }

  // ---------------------------------------------------------- double to int64

  /** How often u goes into s. */
  function Multiples(s: nat, u: nat): (q: nat)
    requires u > 0
    decreases s
  {
    if s < u then 0 else 1 + Multiples(s - u, u)
  }

  lemma {:induction false} MultiplesBounds(s: nat, u: nat)
    requires u > 0
    ensures Multiples(s, u) * u <= s < (Multiples(s, u) + 1) * u
  {
    if s >= u { MultiplesBounds(s - u, u); }
  }

  /** A multiple of 1/u cut towards zero, and rounded up. */
  function TruncBy(s: int, u: nat): int
    requires u > 0
  {
    if s >= 0 then Multiples(s, u) else 0 - Multiples(0 - s, u)
  }

  function CeilBy(s: int, u: nat): int
    requires u > 0
  {
    if s > 0 then Multiples(s - 1, u) + 1 else 0 - Multiples(0 - s, u)
  }

  /** The double cut towards zero, and rounded up. */
  function Trunc(b: Bits): int { TruncBy(Scaled(b), Pow2(BIAS)) }

  function Ceil(b: Bits): int { CeilBy(Scaled(b), Pow2(BIAS)) }

  /** The double is a whole number. */
  predicate Whole(b: Bits) { Scaled(b) == Trunc(b) * Pow2(BIAS) }

  function SignedRounded(x: Int64): int { if x < 0 then 0 - Rounded(0 - x) else Rounded(x) }

  lemma FloatOfIntScaled(x: Int64)
    ensures Scaled(FloatOfInt(x)) == SignedRounded(x) * Pow2(BIAS)
  {
    var n: nat := if x < 0 then 0 - x else x;
    ScaledOfInt(n);
    MagnitudeBound(n);
    ScaledBySign(FloatOfInt(x), MagnitudeOf(n), Rounded(n), Pow2(BIAS));
  }

  lemma ScaledBySign(b: Bits, m: nat, k: nat, u: nat)
    requires Magnitude(b) == m && ScaledMagnitude(m) == k * u
    ensures Scaled(b) == (if Negative(b) then 0 - k else k) * u
  {
    assert (0 - k) * u == 0 - k * u;
  }

  lemma {:induction false} ExcessAtLeast(n: nat)
    requires n >= 0x10_0000_0000_0000
    ensures n / Pow2(ExcessBits(n)) >= 0x10_0000_0000_0000
    decreases n
  {
    if n >= 0x20_0000_0000_0000 {
      ExcessAtLeast(n / 2);
      DivTwice(n, Pow2(ExcessBits(n / 2)));
    }
  }

  /** No integer but 0 becomes a zero. */
  lemma NotRoundedAway(x: Int64)
    ensures SignedRounded(x) * Pow2(BIAS) == 0 ==> x == 0
  {
    var n: nat := if x < 0 then 0 - x else x;
    if n >= 0x20_0000_0000_0000 {
      ExcessAtLeast(n);
      Smaller(0, RoundHalfEven(n, ExcessBits(n)), Pow2(ExcessBits(n)));
    }
    if Rounded(n) > 0 { Smaller(0, Rounded(n), Pow2(BIAS)); }
  }

  /** Integers of up to 53 bits become doubles exactly. */
  lemma SmallIntExact(x: Int64)
    requires -0x20_0000_0000_0000 <= x <= 0x20_0000_0000_0000
    ensures SignedRounded(x) == x
  {
    if x == 0x20_0000_0000_0000 || x == -0x20_0000_0000_0000 {
      ExcessOfShifted(0x10_0000_0000_0000, 1);
      RoundExact(0x10_0000_0000_0000, 1);
    }
  }

  lemma MultiplesAre(s: nat, u: nat, k: int)
    requires u > 0 && k * u <= s < (k + 1) * u
    ensures Multiples(s, u) == k
  {
    MultiplesBounds(s, u);
    var q := Multiples(s, u);
    if q < k { NotLarger(q + 1, k, u); }
    if k < q { NotLarger(k + 1, q, u); }
  }

  lemma TruncWhole(s: int, u: nat, k: int)
    requires u > 0 && s == k * u
    ensures TruncBy(s, u) == k
  {
    assert (k + 1) * u == k * u + u && (0 - k) * u == 0 - k * u && (0 - k + 1) * u == u - k * u;
    if s >= 0 { MultiplesAre(s, u, k); } else { MultiplesAre(0 - s, u, 0 - k); }
  }

  /** The test float64(int64(f)) == f holds of the whole numbers. */
  lemma {:induction false} CastBackIffWhole(b: Bits)
    requires Prelude.Fits(Trunc(b))
    ensures Key(FloatOfInt(Trunc(b))) == Key(b) <==> Whole(b)
  {
    ScaledOrder(FloatOfInt(Trunc(b)), b);
    FloatOfIntScaled(Trunc(b));
    if Scaled(FloatOfInt(Trunc(b))) == Scaled(b) { MultipleIsWhole(b, SignedRounded(Trunc(b))); }
    if Whole(b) { WholeNotRounded(b); }
  }

  lemma MultipleIsWhole(b: Bits, k: int)
    requires Scaled(b) == k * Pow2(BIAS)
    ensures Whole(b)
  {
    TruncWhole(Scaled(b), Pow2(BIAS), k);
  }

  lemma WholeNotRounded(b: Bits)
    requires Whole(b) && Prelude.Fits(Trunc(b))
    ensures SignedRounded(Trunc(b)) == Trunc(b)
  {
    var k: nat := if Trunc(b) < 0 then 0 - Trunc(b) else Trunc(b);
    WholeMagnitude(b, Trunc(b), Pow2(BIAS));
    WholeIsExact(Magnitude(b), k, BIAS);
  }

  lemma WholeMagnitude(b: Bits, x: int, u: nat)
    requires u > 0 && Scaled(b) == x * u
    ensures ScaledMagnitude(Magnitude(b)) == (if x < 0 then 0 - x else x) * u
  {
    if x < 0 { Smaller(x, 0, u); } else { NotLarger(0, x, u); }
    assert (0 - x) * u == 0 - x * u;
  }

  /** Rounding up a double that is not whole. */
  lemma CeilBetween(b: Bits)
    requires !Whole(b)
    ensures (Ceil(b) - 1) * Pow2(BIAS) < Scaled(b) < Ceil(b) * Pow2(BIAS)
    ensures Prelude.Fits(Ceil(b))
  {
    NotWholeIsSmall(b);
    CeilBetweenBy(Scaled(b), Pow2(BIAS));
  }

  lemma CeilBetweenBy(s: int, u: nat)
    requires u > 0 && s != TruncBy(s, u) * u
    requires 0 - 0x20_0000_0000_0000 * u < s < 0x20_0000_0000_0000 * u
    ensures var c := CeilBy(s, u); (c - 1) * u < s < c * u && -0x20_0000_0000_0000 <= c <= 0x20_0000_0000_0000
  {
    var c := CeilBy(s, u);
    CeilExact(s, u);
    if s == c * u { TruncWhole(s, u, c); }
    Bounded(c, s, u);
  }

  lemma CeilFits(b: Bits)
    requires !Whole(b)
    ensures Prelude.Fits(Ceil(b))
  {
    CeilBetween(b);
  }

  lemma CeilExact(s: int, u: nat)
    requires u > 0
    ensures (CeilBy(s, u) - 1) * u < s <= CeilBy(s, u) * u
  {
    if s > 0 {
      MultiplesBounds(s - 1, u);
    } else {
      var q := Multiples(0 - s, u);
      MultiplesBounds(0 - s, u);
      assert (0 - q) * u == 0 - q * u && (0 - q - 1) * u == 0 - (q + 1) * u;
    }
  }

  lemma Bounded(c: int, s: int, u: nat)
    requires u > 0 && (c - 1) * u < s <= c * u
    requires 0 - 0x20_0000_0000_0000 * u < s < 0x20_0000_0000_0000 * u
    ensures -0x20_0000_0000_0000 <= c <= 0x20_0000_0000_0000
  {
    if c > 0x20_0000_0000_0000 { NotLarger(0x20_0000_0000_0000, c - 1, u); }
    if c < -0x20_0000_0000_0000 { NotLarger(c, -0x20_0000_0000_0000, u); }
  }

  lemma NotLarger(a: int, b: int, p: nat)
    requires a <= b
    ensures a * p <= b * p
  {
  }

  lemma NotWholeIsSmall(b: Bits)
    requires !Whole(b)
    ensures 0 - 0x20_0000_0000_0000 * Pow2(BIAS) < Scaled(b) < 0x20_0000_0000_0000 * Pow2(BIAS)
  {
    if ScaledMagnitude(Magnitude(b)) >= 0x20_0000_0000_0000 * Pow2(BIAS) {
      var k := LargeMultiple(b, BIAS);
      MultipleIsWhole(b, k);
    }
  }

  lemma LargeMultiple(b: Bits, bias: nat) returns (k: int)
    requires ScaledMagnitude(Magnitude(b)) >= 0x20_0000_0000_0000 * Pow2(bias)
    ensures Scaled(b) == k * Pow2(bias)
  {
    var n, t := LargeIsWhole(Magnitude(b), bias);
    k := n * Pow2(t);
    ScaledBySign(b, Magnitude(b), n * Pow2(t), Pow2(bias));
    if Negative(b) { k := 0 - k; }
  }

  /** An integer of up to 53 bits and a double compare as their exact values. */
  lemma {:induction false} IntDoubleOrder(x: Int64, b: Bits)
    requires -0x20_0000_0000_0000 <= x <= 0x20_0000_0000_0000
    ensures Sign(Key(FloatOfInt(x)) - Key(b)) == Sign(x * Pow2(BIAS) - Scaled(b))
  {
    ScaledOrder(FloatOfInt(x), b);
    FloatOfIntScaled(x);
    SmallIntExact(x);
  }

  /** With a whole double, that is the order of the integers. */
  lemma {:induction false} IntWholeOrder(x: Int64, b: Bits)
    requires -0x20_0000_0000_0000 <= x <= 0x20_0000_0000_0000 && Whole(b)
    ensures Sign(Key(FloatOfInt(x)) - Key(b)) == Sign(x - Trunc(b))
  {
    IntDoubleOrder(x, b);
    ScaleSign(x, Trunc(b), Pow2(BIAS));
  }

  lemma ScaleSign(a: int, b: int, p: nat)
    requires p > 0
    ensures Sign(a * p - b * p) == Sign(a - b)
  {
    if a < b { Smaller(a, b, p); }
    if b < a { Smaller(b, a, p); }
  }

  /** With any other double, never equal, and less exactly below its rounding up. */
  lemma {:induction false} IntBetweenOrder(x: Int64, b: Bits)
    requires -0x20_0000_0000_0000 <= x <= 0x20_0000_0000_0000 && !Whole(b)
    ensures Sign(Key(FloatOfInt(x)) - Key(b)) == if x < Ceil(b) then -1 else 1
  {
    IntDoubleOrder(x, b);
    CeilBetween(b);
    SignBetween(x, Ceil(b), Scaled(b), Pow2(BIAS));
  }

  lemma SignBetween(x: int, c: int, s: int, u: nat)
    requires (c - 1) * u < s < c * u
    ensures Sign(x * u - s) == if x < c then -1 else 1
  {
    if x < c { NotLarger(x, c - 1, u); } else { NotLarger(c, x, u); }
  }

  /** Integers of up to 53 bits lie below a double that is too high for int64, and
      above one that is too low. */
  lemma BeyondInt64(x: Int64, b: Bits)
    requires -0x20_0000_0000_0000 <= x <= 0x20_0000_0000_0000
    ensures Trunc(b) > 0x7FFF_FFFF_FFFF_FFFF ==> Key(FloatOfInt(x)) < Key(b) && Key(b) > 0 && Ceil(b) >= Trunc(b)
    ensures Trunc(b) < MIN_INT64 ==> Key(b) < Key(FloatOfInt(x)) && Ceil(b) == Trunc(b)
  {
    IntDoubleOrder(x, b);
    TruncBound(Scaled(b), Pow2(BIAS));
    ZeroKey(b);
    if Trunc(b) > 0x7FFF_FFFF_FFFF_FFFF { Smaller(x, Trunc(b), Pow2(BIAS)); }
    if Trunc(b) < MIN_INT64 { Smaller(Trunc(b), x, Pow2(BIAS)); }
  }

  lemma ZeroKey(b: Bits)
    ensures Sign(Key(b)) == Sign(Scaled(b))
  {
    assert ScaledMagnitude(0) == 0;
    ScaledOrder(b, 0);
  }

  lemma TruncBound(s: int, u: nat)
    requires u > 0
    ensures var t := TruncBy(s, u);
            && (s >= 0 ==> 0 <= t * u <= s && t >= 0 && CeilBy(s, u) >= t)
            && (s <= 0 ==> s <= t * u <= 0 && t <= 0 && CeilBy(s, u) == t)
  {
    if s > 0 {
      MultiplesBounds(s, u);
      MultiplesBounds(s - 1, u);
      AtMostOneMore(Multiples(s, u), Multiples(s - 1, u) + 1, s, u);
    } else {
      var q := Multiples(0 - s, u);
      MultiplesBounds(0 - s, u);
      assert (0 - q) * u == 0 - q * u;
    }
  }

  lemma AtMostOneMore(t: nat, c: nat, s: int, u: nat)
    requires u > 0 && t * u <= s && s - 1 < c * u
    ensures t <= c
  {
    if c < t { NotLarger(c + 1, t, u); }
  }

  lemma MinInt64Exact()
    ensures SignedRounded(MIN_INT64) == MIN_INT64
  {
    Pow2Of52();
    assert 0x10_0000_0000_0000 * Pow2(11) == 0x8000_0000_0000_0000;
    ExcessOfShifted(0x10_0000_0000_0000, 11);
    RoundExact(0x10_0000_0000_0000, 11);
  }

  /** The least int64 is not the double too low for int64. */
  lemma TooLowIsLess(b: Bits)
    requires Trunc(b) < MIN_INT64
    ensures Key(b) < Key(FloatOfInt(MIN_INT64))
  {
    ScaledOrder(b, FloatOfInt(MIN_INT64));
    MinInt64Scaled();
    BelowMinInt64(Scaled(b), Pow2(BIAS));
  }

  lemma MinInt64Scaled()
    ensures Scaled(FloatOfInt(MIN_INT64)) == MIN_INT64 * Pow2(BIAS)
  {
    FloatOfIntScaled(MIN_INT64);
    MinInt64Exact();
  }

  lemma BelowMinInt64(s: int, u: nat)
    requires u > 0 && TruncBy(s, u) < MIN_INT64
    ensures s < MIN_INT64 * u
  {
    var t := TruncBy(s, u);
    CeilExact(s, u);
    TruncBound(s, u);
    Smaller(t, MIN_INT64, u);
  }

  // ----------------------------------------------- integers behind one double

  lemma RoundStep(n: nat, s: nat)
    ensures RoundHalfEven(n, s) <= RoundHalfEven(n + 1, s)
  {
    var p := Pow2(s);
    var q, r := n / p, n % p;
    if r + 1 < p {
      QuotientUnique(n + 1, p, q, r + 1);
    } else {
      NextMultiple(n, p);
    }
  }

  lemma NextMultiple(n: nat, p: nat)
    requires p > 0 && n % p == p - 1
    ensures (n + 1) / p == n / p + 1 && (n + 1) % p == 0
  {
    var q := n / p;
    assert n == p * q + p - 1;
    assert p * (q + 1) == p * q + p;
    QuotientUnique(n + 1, p, q + 1, 0);
  }

  /** One more either needs as many excess bits, or is a power of two that needs one more. */
  lemma {:induction false} ExcessStep(n: nat)
    requires n >= 0x20_0000_0000_0000
    ensures ExcessBits(n + 1) == ExcessBits(n) ||
            (ExcessBits(n + 1) == ExcessBits(n) + 1 && n + 1 == 0x20_0000_0000_0000 * Pow2(ExcessBits(n)))
  {
    if n % 2 == 1 {
      assert (n + 1) / 2 == n / 2 + 1;
      if n / 2 >= 0x20_0000_0000_0000 { ExcessStep(n / 2); }
    }
  }

  lemma RoundedStep(n: nat)
    requires n < 0x8000_0000_0000_0000
    ensures Rounded(n) <= Rounded(n + 1)
  {
    if n + 1 == 0x20_0000_0000_0000 {
      RoundedShifted(0x10_0000_0000_0000, 1);
    } else if n >= 0x20_0000_0000_0000 {
      var s := ExcessBits(n);
      ExcessStep(n);
      if ExcessBits(n + 1) == s {
        RoundStep(n, s);
        NotLarger(RoundHalfEven(n, s), RoundHalfEven(n + 1, s), Pow2(s));
      } else {
        RoundBounds(n);
        NotLarger(RoundHalfEven(n, s), 0x20_0000_0000_0000, Pow2(s));
        assert n + 1 == 0x10_0000_0000_0000 * Pow2(s + 1);
        RoundedShifted(0x10_0000_0000_0000, s + 1);
      }
    }
  }

  lemma {:induction false} RoundedMonotone(m: nat, n: nat)
    requires m <= n <= 0x8000_0000_0000_0000
    ensures Rounded(m) <= Rounded(n)
    decreases n
  {
    if m < n {
      RoundedMonotone(m, n - 1);
      RoundedStep(n - 1);
    }
  }

  lemma SignedMonotone(x: Int64, y: Int64)
    requires x <= y
    ensures SignedRounded(x) <= SignedRounded(y)
  {
    if x >= 0 {
      RoundedMonotone(x, y);
    } else if y < 0 {
      RoundedMonotone(0 - y, 0 - x);
    }
  }

  /** The conversion keeps the order of integers, if not their difference. */
  lemma FloatMonotone(x: Int64, y: Int64)
    requires x <= y
    ensures Key(FloatOfInt(x)) <= Key(FloatOfInt(y))
  {
    SignedMonotone(x, y);
    FloatOfIntScaled(x);
    FloatOfIntScaled(y);
    ScaledOrder(FloatOfInt(x), FloatOfInt(y));
    NotLarger(SignedRounded(x), SignedRounded(y), Pow2(BIAS));
  }

  /** Doubles that more than one int64 becomes: whole numbers from 2^53 to 2^63 in
      absolute value, but below 2^54 only those with an even significand. */
  predicate Ambiguous(b: Bits) {
    var m := Magnitude(b);
    0x4340_0000_0000_0000 <= m <= 0x43E0_0000_0000_0000 && (m % 2 == 0 || m >= 0x4350_0000_0000_0000)
  }

  lemma ShiftedPlusOne(n: nat, t: nat)
    requires 0x10_0000_0000_0000 <= n < 0x20_0000_0000_0000 && t >= 1 && (n % 2 == 0 || t >= 2)
    ensures Rounded(n * Pow2(t) + 1) == n * Pow2(t)
  {
    ExcessPlusOne(n, t);
    RoundPlusOne(n, t);
  }

  lemma ExcessPlusOne(n: nat, t: nat)
    requires 0x10_0000_0000_0000 <= n < 0x20_0000_0000_0000 && t >= 1
    ensures n * Pow2(t) + 1 >= 0x20_0000_0000_0000 && ExcessBits(n * Pow2(t) + 1) == t
  {
    ExcessOfShifted(n, t - 1);
    DoubledPlusOne(n * Pow2(t - 1));
    assert n * Pow2(t) == 2 * (n * Pow2(t - 1));
  }

  lemma DoubledPlusOne(m: nat)
    requires m >= 0x10_0000_0000_0000
    ensures ExcessBits(2 * m + 1) == 1 + ExcessBits(m)
  {
    assert (2 * m + 1) / 2 == m;
  }

  lemma RoundPlusOne(n: nat, t: nat)
    requires t >= 1 && (n % 2 == 0 || t >= 2)
    ensures RoundHalfEven(n * Pow2(t) + 1, t) == n
  {
    assert Pow2(t) == 2 * Pow2(t - 1);
    if t >= 2 { assert Pow2(t) == 4 * Pow2(t - 2); }
    QuotientUnique(n * Pow2(t) + 1, Pow2(t), n, 1);
  }

  lemma TopPair()
    ensures Rounded(0x7FFF_FFFF_FFFF_FFFF) == 0x8000_0000_0000_0000
    ensures Rounded(0x7FFF_FFFF_FFFF_FFFE) == 0x8000_0000_0000_0000
  {
    assert ExcessBits(0x7FFF_FFFF_FFFF_FFFF) == 10 && ExcessBits(0x7FFF_FFFF_FFFF_FFFE) == 10;
    assert Pow2(10) == 1024;
    assert RoundHalfEven(0x7FFF_FFFF_FFFF_FFFF, 10) == 0x20_0000_0000_0000;
    assert RoundHalfEven(0x7FFF_FFFF_FFFF_FFFE, 10) == 0x20_0000_0000_0000;
  }

  /** Two integers rounded to one. */
  lemma Collide(n: nat, t: nat) returns (i: nat, j: nat)
    requires 0x10_0000_0000_0000 <= n < 0x20_0000_0000_0000 && t >= 1 && (n % 2 == 0 || t >= 2)
    requires n * Pow2(t) <= 0x8000_0000_0000_0000
    ensures 0 < i < j <= 0x7FFF_FFFF_FFFF_FFFF && Rounded(i) == Rounded(j) == n * Pow2(t)
  {
    if n * Pow2(t) == 0x8000_0000_0000_0000 {
      TopPair();
      return 0x7FFF_FFFF_FFFF_FFFE, 0x7FFF_FFFF_FFFF_FFFF;
    }
    i, j := n * Pow2(t), n * Pow2(t) + 1;
    RoundedShifted(n, t);
    ShiftedPlusOne(n, t);
    ShiftedIsEven(n, t);
  }

  lemma ShiftedIsEven(n: nat, t: nat)
    requires n > 0 && t >= 1
    ensures n * Pow2(t) > 0 && n * Pow2(t) % 2 == 0
  {
    Smaller(0, n, Pow2(t - 1));
    assert n * Pow2(t) == 2 * (n * Pow2(t - 1));
  }

  /** A magnitude from 2^53 to 2^63 as a shifted significand. */
  lemma Significand(m: nat, bias: nat) returns (n: nat, t: nat)
    requires (bias + 2) * 0x10_0000_0000_0000 <= m
    ensures 0x10_0000_0000_0000 <= n < 0x20_0000_0000_0000 && t >= 1
    ensures m == (bias + t) * 0x10_0000_0000_0000 + n
    ensures ScaledMagnitude(m) == n * Pow2(t) * Pow2(bias)
  {
    var e := m / 0x10_0000_0000_0000;
    n := 0x10_0000_0000_0000 + m % 0x10_0000_0000_0000;
    t := e - 1 - bias;
    ScaledNormal(m, bias + t, n);
    Pow2Add(t, bias);
    MultiplyThree(n, Pow2(t), Pow2(bias));
  }

  lemma TopScaled()
    ensures ScaledMagnitude(0x43E0_0000_0000_0000) == 0x8000_0000_0000_0000 * Pow2(BIAS)
    ensures ScaledMagnitude(0x4340_0000_0000_0000) == 0x20_0000_0000_0000 * Pow2(BIAS)
    ensures ScaledMagnitude(0x4350_0000_0000_0000) == 0x40_0000_0000_0000 * Pow2(BIAS)
  {
    Pow2Of52();
    TopScaledAt(0x43E0_0000_0000_0000, BIAS, 11);
    TopScaledAt(0x4340_0000_0000_0000, BIAS, 1);
    TopScaledAt(0x4350_0000_0000_0000, BIAS, 2);
  }

  lemma TopScaledAt(m: nat, bias: nat, t: nat)
    requires m == (bias + t + 1) * 0x10_0000_0000_0000
    ensures ScaledMagnitude(m) == 0x10_0000_0000_0000 * Pow2(t) * Pow2(bias)
  {
    ScaledNormal(m, bias + t, 0x10_0000_0000_0000);
    Pow2Add(t, bias);
    MultiplyThree(0x10_0000_0000_0000, Pow2(t), Pow2(bias));
  }

  /** Half of an odd number is rounded to an even one. */
  lemma OddIsExact(m: nat)
    requires RoundHalfEven(m, 1) % 2 == 1
    ensures m == 2 * RoundHalfEven(m, 1)
  {
    assert Pow2(1) == 2;
  }

  lemma RoundedOdd(n: nat, k: nat)
    requires n <= 0x8000_0000_0000_0000 && Rounded(n) == 2 * k && k % 2 == 1
    requires 0x10_0000_0000_0000 <= k < 0x20_0000_0000_0000
    ensures n == 2 * k
  {
    if n >= 0x40_0000_0000_0000 {
      RoundedMonotone(0x40_0000_0000_0000, n);
      RoundedShifted(0x10_0000_0000_0000, 2);
    } else if n >= 0x20_0000_0000_0000 {
      assert ExcessBits(n) == 1 && Pow2(1) == 2;
      OddIsExact(n);
    }
  }

  /** Two integers rounded to the same one are large. */
  lemma CollisionIsLarge(i: nat, j: nat)
    requires i < j <= 0x8000_0000_0000_0000 && Rounded(i) == Rounded(j)
    ensures 0x20_0000_0000_0000 <= Rounded(i) <= 0x8000_0000_0000_0000
  {
    RoundedShifted(0x10_0000_0000_0000, 1);
    if j <= 0x20_0000_0000_0000 {
      assert Rounded(j) == j;
    } else {
      RoundedMonotone(0x20_0000_0000_0000, j);
    }
    Pow2Of52();
    assert 0x10_0000_0000_0000 * Pow2(11) == 0x8000_0000_0000_0000;
    RoundedShifted(0x10_0000_0000_0000, 11);
    RoundedMonotone(j, 0x8000_0000_0000_0000);
  }

  lemma MagnitudeBetween(m: nat, a: nat, b: nat)
    requires ScaledMagnitude(a) <= ScaledMagnitude(m) <= ScaledMagnitude(b)
    ensures a <= m <= b
  {
    if m < a { ScaledMonotone(m, a); }
    if b < m { ScaledMonotone(b, m); }
  }

  lemma CollisionIsAmbiguous(b: Bits, i: nat, j: nat)
    requires i < j <= 0x8000_0000_0000_0000 && Rounded(i) == Rounded(j)
    requires ScaledMagnitude(Magnitude(b)) == Rounded(i) * Pow2(BIAS)
    ensures Ambiguous(b)
  {
    var m := Magnitude(b);
    CollisionIsLarge(i, j);
    TopScaled();
    NotLarger(0x20_0000_0000_0000, Rounded(i), Pow2(BIAS));
    NotLarger(Rounded(i), 0x8000_0000_0000_0000, Pow2(BIAS));
    MagnitudeBetween(m, 0x4340_0000_0000_0000, 0x43E0_0000_0000_0000);
    if m < 0x4350_0000_0000_0000 { EvenSignificand(m, i, j, BIAS); }
  }

  lemma EvenSignificand(m: nat, i: nat, j: nat, bias: nat)
    requires (bias + 2) * 0x10_0000_0000_0000 <= m < (bias + 3) * 0x10_0000_0000_0000
    requires i < j <= 0x8000_0000_0000_0000 && Rounded(i) == Rounded(j)
    requires ScaledMagnitude(m) == Rounded(i) * Pow2(bias)
    ensures m % 2 == 0
  {
    var n, t := Significand(m, bias);
    Parity(m, bias, t, n);
    Cancel(Rounded(i), n * Pow2(t), Pow2(bias));
    NotBothOdd(i, j, n);
  }

  lemma Parity(m: nat, bias: nat, t: nat, n: nat)
    requires m == (bias + t) * 0x10_0000_0000_0000 + n && 0x10_0000_0000_0000 <= n < 0x20_0000_0000_0000 && t >= 1
    ensures m % 2 == n % 2
    ensures m < (bias + 3) * 0x10_0000_0000_0000 <==> t == 1
  {
  }

  lemma NotBothOdd(i: nat, j: nat, n: nat)
    requires i < j <= 0x8000_0000_0000_0000 && Rounded(i) == Rounded(j) == n * Pow2(1)
    requires 0x10_0000_0000_0000 <= n < 0x20_0000_0000_0000
    ensures n % 2 == 0
  {
    assert Pow2(1) == 2;
    if n % 2 == 1 {
      RoundedOdd(i, n);
      RoundedOdd(j, n);
    }
  }

  lemma AmbiguousCollides(b: Bits) returns (i: nat, j: nat, k: nat)
    requires Ambiguous(b)
    ensures 0 < i < j <= 0x7FFF_FFFF_FFFF_FFFF && Rounded(i) == Rounded(j) == k
    ensures ScaledMagnitude(Magnitude(b)) == k * Pow2(BIAS)
  {
    TopBound(Magnitude(b), BIAS);
    i, j := SignificandCollides(Magnitude(b), BIAS);
    k := Rounded(i);
  }

  lemma TopBound(m: nat, bias: nat)
    requires m <= (bias + 12) * 0x10_0000_0000_0000
    ensures ScaledMagnitude(m) <= 0x8000_0000_0000_0000 * Pow2(bias)
  {
    var top := (bias + 12) * 0x10_0000_0000_0000;
    Pow2Of11();
    TopScaledAt(top, bias, 11);
    if m < top { ScaledMonotone(m, top); }
  }

  lemma SignificandCollides(m: nat, bias: nat) returns (i: nat, j: nat)
    requires (bias + 2) * 0x10_0000_0000_0000 <= m && ScaledMagnitude(m) <= 0x8000_0000_0000_0000 * Pow2(bias)
    requires m % 2 == 0 || m >= (bias + 3) * 0x10_0000_0000_0000
    ensures 0 < i < j <= 0x7FFF_FFFF_FFFF_FFFF && Rounded(i) == Rounded(j)
    ensures ScaledMagnitude(m) == Rounded(i) * Pow2(bias)
  {
    var n, t := Significand(m, bias);
    Parity(m, bias, t, n);
    AtMost(n * Pow2(t), 0x8000_0000_0000_0000, Pow2(bias));
    i, j := Collide(n, t);
  }

  lemma AtMost(a: int, b: int, p: nat)
    requires p > 0 && a * p <= b * p
    ensures a <= b
  {
    if b < a { Smaller(b, a, p); }
  }

  lemma SignOfFloat(x: Int64)
    ensures Sign(Key(FloatOfInt(x))) == Sign(x)
  {
    FloatOfIntScaled(x);
    ZeroKey(FloatOfInt(x));
    NotRoundedAway(x);
  }

  /** Ambiguous doubles are those that more than one int64 becomes. */
  lemma AmbiguousShared(b: Bits) returns (x: Int64, y: Int64)
    requires Ambiguous(b)
    ensures x < y && Key(FloatOfInt(x)) == Key(FloatOfInt(y)) == Key(b)
  {
    var i, j, k := AmbiguousCollides(b);
    KeyFromRounded(b, i, k);
    KeyFromRounded(b, j, k);
    var low: int, high: int := i, j;
    if Negative(b) {
      x, y := 0 - high, 0 - low;
    } else {
      x, y := low, high;
    }
  }

  lemma KeyFromRounded(b: Bits, i: nat, k: nat)
    requires 0 < i <= 0x7FFF_FFFF_FFFF_FFFF && Rounded(i) == k && ScaledMagnitude(Magnitude(b)) == k * Pow2(BIAS)
    ensures Key(FloatOfInt(if Negative(b) then 0 - i else i)) == Key(b)
  {
    var x: Int64 := if Negative(b) then 0 - i else i;
    ScaledOrder(FloatOfInt(x), b);
    FloatOfIntScaled(x);
    ScaledBySign(b, Magnitude(b), k, Pow2(BIAS));
  }

  lemma SharedIsAmbiguous(b: Bits, x: Int64, y: Int64)
    requires x < y && Key(FloatOfInt(x)) == Key(FloatOfInt(y)) == Key(b)
    ensures Ambiguous(b)
  {
    SignOfFloat(x);
    SignOfFloat(y);
    SameFloatSameRounded(x, y);
    ScaledOrder(FloatOfInt(x), b);
    FloatOfIntScaled(x);
    WholeMagnitude(b, SignedRounded(x), Pow2(BIAS));
    if x >= 0 { CollisionIsAmbiguous(b, x, y); } else { CollisionIsAmbiguous(b, 0 - y, 0 - x); }
  }

  lemma SameFloatSameRounded(x: Int64, y: Int64)
    requires Key(FloatOfInt(x)) == Key(FloatOfInt(y))
    ensures SignedRounded(x) == SignedRounded(y)
  {
    ScaledOrder(FloatOfInt(x), FloatOfInt(y));
    FloatOfIntScaled(x);
    FloatOfIntScaled(y);
    Cancel(SignedRounded(x), SignedRounded(y), Pow2(BIAS));
  }

  // ------------------------------------------------- the neighbours of a double

  lemma {:induction false} ExcessMinusOne(n: nat, t: nat)
    requires 0x10_0000_0000_0000 < n <= 0x20_0000_0000_0000
    ensures n * Pow2(t) - 1 >= n - 1 && ExcessBits(n * Pow2(t) - 1) == t
  {
    if t > 0 {
      ExcessMinusOne(n, t - 1);
      DoubledMinusOne(n * Pow2(t - 1));
      assert n * Pow2(t) == 2 * (n * Pow2(t - 1));
    }
  }

  lemma DoubledMinusOne(m: nat)
    requires m > 0x10_0000_0000_0000
    ensures ExcessBits(2 * m - 1) == 1 + ExcessBits(m - 1)
  {
    assert (2 * m - 1) / 2 == m - 1;
  }

  lemma RoundMinusOne(n: nat, t: nat)
    requires n > 0 && t >= 1 && (n % 2 == 0 || t >= 2)
    ensures n * Pow2(t) >= 1 && RoundHalfEven(n * Pow2(t) - 1, t) == n
  {
    var p := Pow2(t);
    assert p == 2 * Pow2(t - 1);
    if t >= 2 { assert p == 4 * Pow2(t - 2); }
    Smaller(0, n, p);
    LastOfMultiple(n, p);
  }

  lemma LastOfMultiple(n: nat, p: nat)
    requires n > 0 && p > 0 && n * p >= 1
    ensures (n * p - 1) / p == n - 1 && (n * p - 1) % p == p - 1
  {
    assert n * p - 1 == p * (n - 1) + (p - 1);
    QuotientUnique(n * p - 1, p, n - 1, p - 1);
  }

  /** One less is rounded up to the same. */
  lemma ShiftedMinusOne(n: nat, t: nat)
    requires 0x10_0000_0000_0000 < n <= 0x20_0000_0000_0000 && t >= 1 && (n % 2 == 0 || t >= 2)
    ensures n * Pow2(t) >= 0x20_0000_0000_0000 && Rounded(n * Pow2(t) - 1) == n * Pow2(t)
  {
    ExcessMinusOne(n, t);
    RoundMinusOne(n, t);
    ShiftedLarge(n, t);
  }

  lemma ShiftedLarge(n: nat, t: nat)
    requires n > 0x10_0000_0000_0000 && t >= 1
    ensures n * Pow2(t) - 1 >= 0x20_0000_0000_0000
  {
    assert Pow2(t) == 2 * Pow2(t - 1);
    NotLarger(0x10_0000_0000_0001, n, Pow2(t));
    NotLarger(2, Pow2(t), 0x10_0000_0000_0001);
  }

  /** The integer below a shifted significand is rounded to it too, but for 2^53. */
  lemma RoundedBelow(n: nat, t: nat)
    requires 0x10_0000_0000_0000 <= n < 0x20_0000_0000_0000 && t >= 1 && (n % 2 == 0 || t >= 2)
    ensures n * Pow2(t) >= 0x20_0000_0000_0000
    ensures n * Pow2(t) != 0x20_0000_0000_0000 ==> Rounded(n * Pow2(t) - 1) == n * Pow2(t)
  {
    if n > 0x10_0000_0000_0000 {
      ShiftedMinusOne(n, t);
    } else {
      PowerBelow(n, t);
    }
  }

  lemma PowerBelow(n: nat, t: nat)
    requires n == 0x10_0000_0000_0000 && t >= 1
    ensures n * Pow2(t) >= 0x20_0000_0000_0000
    ensures n * Pow2(t) != 0x20_0000_0000_0000 ==> Rounded(n * Pow2(t) - 1) == n * Pow2(t)
  {
    assert Pow2(t) == 2 * Pow2(t - 1);
    if t >= 2 { ShiftedMinusOne(0x20_0000_0000_0000, t - 1); } else { assert Pow2(0) == 1; }
  }

  /** What an ambiguous double stands for, and its neighbours. */
  lemma AmbiguousNeighbours(b: Bits) returns (k: nat)
    requires Ambiguous(b)
    ensures 0x20_0000_0000_0000 <= k <= 0x8000_0000_0000_0000
    ensures ScaledMagnitude(Magnitude(b)) == k * Pow2(BIAS)
    ensures Rounded(k) == k && Rounded(k + 1) == k && (k != 0x20_0000_0000_0000 ==> Rounded(k - 1) == k)
    ensures k % 2 == 0
  {
    TopBound(Magnitude(b), BIAS);
    k := SignificandNeighbours(Magnitude(b), BIAS);
  }

  lemma SignificandNeighbours(m: nat, bias: nat) returns (k: nat)
    requires (bias + 2) * 0x10_0000_0000_0000 <= m && ScaledMagnitude(m) <= 0x8000_0000_0000_0000 * Pow2(bias)
    requires m % 2 == 0 || m >= (bias + 3) * 0x10_0000_0000_0000
    ensures 0x20_0000_0000_0000 <= k <= 0x8000_0000_0000_0000 && k % 2 == 0
    ensures ScaledMagnitude(m) == k * Pow2(bias)
    ensures Rounded(k) == k && Rounded(k + 1) == k && (k != 0x20_0000_0000_0000 ==> Rounded(k - 1) == k)
  {
    var n, t := Significand(m, bias);
    Parity(m, bias, t, n);
    k := n * Pow2(t);
    AtMost(k, 0x8000_0000_0000_0000, Pow2(bias));
    RoundedShifted(n, t);
    ShiftedPlusOne(n, t);
    RoundedBelow(n, t);
    ShiftedIsEven(n, t);
  }

  lemma KeyIfRounded(b: Bits, x: Int64)
    requires Whole(b) && SignedRounded(x) == Trunc(b)
    ensures Key(FloatOfInt(x)) == Key(b)
  {
    ScaledOrder(FloatOfInt(x), b);
    FloatOfIntScaled(x);
  }

  lemma AmbiguousWhole(b: Bits) returns (k: nat)
    requires Ambiguous(b)
    ensures Whole(b) && Trunc(b) == (if Negative(b) then 0 - k else k)
    ensures 0x20_0000_0000_0000 <= k <= 0x8000_0000_0000_0000 && k % 2 == 0
    ensures Rounded(k) == k && Rounded(k + 1) == k && (k != 0x20_0000_0000_0000 ==> Rounded(k - 1) == k)
  {
    k := AmbiguousNeighbours(b);
    WholeBySign(b, k);
  }

  lemma WholeBySign(b: Bits, k: nat)
    requires ScaledMagnitude(Magnitude(b)) == k * Pow2(BIAS)
    ensures Whole(b) && Trunc(b) == (if Negative(b) then 0 - k else k)
  {
    var x: int := k;
    if Negative(b) { x := 0 - x; }
    ScaledBySign(b, Magnitude(b), k, Pow2(BIAS));
    TruncWhole(Scaled(b), Pow2(BIAS), x);
  }

  lemma RoundedUpDown(x: int, k: nat)
    requires x == k || x == 0 - k
    requires 0x20_0000_0000_0000 <= k <= 0x8000_0000_0000_0000
    requires Rounded(k + 1) == k && (k != 0x20_0000_0000_0000 ==> Rounded(k - 1) == k)
    ensures Fits(x + 1) && x != -0x20_0000_0000_0000 ==> SignedRounded(x + 1) == x
    ensures Fits(x - 1) && x != 0x20_0000_0000_0000 ==> SignedRounded(x - 1) == x
  {
  }

  /** The integer above an ambiguous double becomes it, unless it is -2^53, and the one
      below, unless it is 2^53; as far as there are such integers. */
  lemma AmbiguousNext(b: Bits)
    requires Ambiguous(b)
    ensures Whole(b)
    ensures Fits(Trunc(b) + 1) && Trunc(b) != -0x20_0000_0000_0000 ==> Key(FloatOfInt(Trunc(b) + 1)) == Key(b)
    ensures Fits(Trunc(b) - 1) && Trunc(b) != 0x20_0000_0000_0000 ==> Key(FloatOfInt(Trunc(b) - 1)) == Key(b)
    ensures Trunc(b) != 0x7FFF_FFFF_FFFF_FFFF && MIN_INT64 <= Trunc(b)
  {
    var k := AmbiguousWhole(b);
    RoundedUpDown(Trunc(b), k);
    if Fits(Trunc(b) + 1) && Trunc(b) != -0x20_0000_0000_0000 { KeyIfRounded(b, Trunc(b) + 1); }
    if Fits(Trunc(b) - 1) && Trunc(b) != 0x20_0000_0000_0000 { KeyIfRounded(b, Trunc(b) - 1); }
  }

  // ------------------------------------------------ comparing any int64

  lemma SmallStrict(x: Int64, y: Int64)
    requires -0x20_0000_0000_0000 <= x < y <= 0x20_0000_0000_0000
    ensures Key(FloatOfInt(x)) < Key(FloatOfInt(y))
  {
    IntDoubleOrder(x, FloatOfInt(y));
    FloatOfIntScaled(y);
    SmallIntExact(y);
    Smaller(x, y, Pow2(BIAS));
  }

  /** With a double that is not whole, every int64 compares as with its rounding up. */
  lemma AnyBetweenOrder(x: Int64, b: Bits)
    requires !Whole(b)
    ensures Fits(Ceil(b))
    ensures Sign(Key(FloatOfInt(x)) - Key(b)) == if x < Ceil(b) then -1 else 1
  {
    CeilStrict(b);
    if x > 0x20_0000_0000_0000 {
      IntBetweenOrder(0x20_0000_0000_0000, b);
      FloatMonotone(0x20_0000_0000_0000, x);
    } else if x < -0x20_0000_0000_0000 {
      IntBetweenOrder(-0x20_0000_0000_0000, b);
      FloatMonotone(x, -0x20_0000_0000_0000);
    } else {
      IntBetweenOrder(x, b);
    }
  }

  lemma CeilStrict(b: Bits)
    requires !Whole(b)
    ensures -0x20_0000_0000_0000 < Ceil(b) <= 0x20_0000_0000_0000
  {
    NotWholeIsSmall(b);
    CeilBetweenBy(Scaled(b), Pow2(BIAS));
    AtLeast(Ceil(b), -0x20_0000_0000_0000, Pow2(BIAS));
  }

  lemma AtLeast(a: int, b: int, p: nat)
    requires b * p < a * p
    ensures b < a
  {
    if a <= b { NotLarger(a, b, p); }
  }

  /** With a whole double, every int64 compares as with that number, or becomes it. */
  lemma AnyWholeOrder(x: Int64, b: Bits)
    requires Whole(b) && Fits(Trunc(b))
    ensures x == Trunc(b) ==> Key(FloatOfInt(x)) == Key(b)
    ensures x < Trunc(b) ==> Key(FloatOfInt(x)) <= Key(b)
    ensures x > Trunc(b) ==> Key(FloatOfInt(x)) >= Key(b)
  {
    CastBackIffWhole(b);
    if x < Trunc(b) { FloatMonotone(x, Trunc(b)); }
    if x > Trunc(b) { FloatMonotone(Trunc(b), x); }
  }

  lemma TooHighIsMore(x: Int64, b: Bits)
    requires Trunc(b) > 0x7FFF_FFFF_FFFF_FFFF
    ensures Key(FloatOfInt(x)) <= Key(b)
  {
    FloatMonotone(x, 0x7FFF_FFFF_FFFF_FFFF);
    MaxInt64Below(b);
  }

  lemma MaxInt64Below(b: Bits)
    requires Trunc(b) > 0x7FFF_FFFF_FFFF_FFFF
    ensures Key(FloatOfInt(0x7FFF_FFFF_FFFF_FFFF)) <= Key(b)
  {
    ScaledOrder(FloatOfInt(0x7FFF_FFFF_FFFF_FFFF), b);
    FloatOfIntScaled(0x7FFF_FFFF_FFFF_FFFF);
    TopPair();
    AboveMaxInt64(Scaled(b), Pow2(BIAS));
  }

  lemma AboveMaxInt64(s: int, u: nat)
    requires u > 0 && TruncBy(s, u) > 0x7FFF_FFFF_FFFF_FFFF
    ensures s >= 0x8000_0000_0000_0000 * u
  {
    var t := TruncBy(s, u);
    TruncBound(s, u);
    NotLarger(0x8000_0000_0000_0000, t, u);
  }

  /** Two integers next to each other around 2^53 that stay apart. */
  lemma EdgesApart(x: Int64)
    ensures x < 0x20_0000_0000_0000 ==> Key(FloatOfInt(x)) < Key(FloatOfInt(0x20_0000_0000_0000))
    ensures x > -0x20_0000_0000_0000 ==> Key(FloatOfInt(x)) > Key(FloatOfInt(-0x20_0000_0000_0000))
  {
    if x < 0x20_0000_0000_0000 {
      FloatMonotone(x, 0x1F_FFFF_FFFF_FFFF);
      SmallStrict(0x1F_FFFF_FFFF_FFFF, 0x20_0000_0000_0000);
    }
    if x > -0x20_0000_0000_0000 {
      FloatMonotone(-0x1F_FFFF_FFFF_FFFF, x);
      SmallStrict(-0x20_0000_0000_0000, -0x1F_FFFF_FFFF_FFFF);
    }
  }

  lemma TopsAlike()
    ensures Key(FloatOfInt(0x7FFF_FFFF_FFFF_FFFE)) == Key(FloatOfInt(0x7FFF_FFFF_FFFF_FFFF))
  {
    TopPair();
    FloatOfIntScaled(0x7FFF_FFFF_FFFF_FFFE);
    FloatOfIntScaled(0x7FFF_FFFF_FFFF_FFFF);
    ScaledOrder(FloatOfInt(0x7FFF_FFFF_FFFF_FFFE), FloatOfInt(0x7FFF_FFFF_FFFF_FFFF));
  }

  /** The least ambiguous double above zero is 2^53. */
  lemma LeastAmbiguous()
    ensures Ambiguous(0x4340_0000_0000_0000) && Trunc(0x4340_0000_0000_0000) == 0x20_0000_0000_0000
  {
    TopScaled();
    WholeBySign(0x4340_0000_0000_0000, 0x20_0000_0000_0000);
  }
}
