/** Overflow-checked integer arithmetic (document/value.go, calculateIntegers).

    Go's int64 operations wrap around; the code detects that after the fact, from
    the sign or by dividing back, and then answers with a double.
  */
module IntegerArithmetic {

  import opened Prelude

  /** The value an int64 register holds after computing x: x modulo 2^64. */
  function Wrap(x: int): (r: Int64)
    ensures Fits(x) ==> r == x
    decreases if x > 0x7FFF_FFFF_FFFF_FFFF then x else if x < -0x8000_0000_0000_0000 then -x else 0
  {
    if x > 0x7FFF_FFFF_FFFF_FFFF then Wrap(x - 0x1_0000_0000_0000_0000)
    else if x < -0x8000_0000_0000_0000 then Wrap(x + 0x1_0000_0000_0000_0000)
    else x
  }

  /** Wrap for the sum of two int64 values, where one turn is enough. */
  function WrapSum(x: int): (r: int)
    requires -0x1_0000_0000_0000_0000 <= x < 0x1_0000_0000_0000_0000
    ensures r == Wrap(x)
  {
    if x > 0x7FFF_FFFF_FFFF_FFFF then x - 0x1_0000_0000_0000_0000
    else if x < -0x8000_0000_0000_0000 then x + 0x1_0000_0000_0000_0000
    else x
  }

  /** Wrapping takes away a whole number of turns. */
  lemma {:induction false} WrapTurns(x: int) returns (k: int)
    ensures Wrap(x) == x - k * 0x1_0000_0000_0000_0000
    decreases if x > 0x7FFF_FFFF_FFFF_FFFF then x else if x < -0x8000_0000_0000_0000 then -x else 0
  {
    if x > 0x7FFF_FFFF_FFFF_FFFF {
      k := WrapTurns(x - 0x1_0000_0000_0000_0000);
      k := k + 1;
    } else if x < -0x8000_0000_0000_0000 {
      k := WrapTurns(x + 0x1_0000_0000_0000_0000);
      k := k - 1;
    } else {
      k := 0;
    }
  }

  /** Go's integer division: the quotient is cut off toward zero. */
  function Quotient(a: int, b: int): (q: int)
    requires b != 0
  {
    if a >= 0 then (if b > 0 then a / b else -(a / -b))
    else (if b > 0 then -(-a / b) else -a / -b)
  }

  function Remainder(a: int, b: int): (r: int)
    requires b != 0
  {
    a - b * Quotient(a, b)
  }

  datatype Operator = Add | Sub | Mul | Div | Mod

  /** An integer, NULL, or the double `float64(l) op float64(r)`, kept symbolic. */
  datatype Number = Integer(i: Int64) | Null | DoubleSum(l: Int64, r: Int64) | DoubleProduct(l: Int64, r: Int64)

  function CalculateSum(xa: Int64, xb: Int64): Number {
    var xr := Wrap(xa + xb);
    if (xr > xa) != (xb > 0) then DoubleSum(xa, xb) else Integer(xr)
  }

  function CalculateProduct(xa: Int64, xb: Int64): Number {
    if xa == 0 || xb == 0 then Integer(0)
    else
      var xr := Wrap(xa * xb);
      if (xr < 0) == ((xa < 0) != (xb < 0)) && Wrap(Quotient(xr, xb)) == xa then Integer(xr)
      else DoubleProduct(xa, xb)
  }

  function CalculateIntegers(op: Operator, xa: Int64, xb: Int64): Number {
    match op
    case Sub => CalculateSum(xa, Wrap(0 - xb))
    case Add => CalculateSum(xa, xb)
    case Mul => CalculateProduct(xa, xb)
    case Div => if xb == 0 then Null else Integer(Wrap(Quotient(xa, xb)))
    case Mod => if xb == 0 then Null else Integer(Wrap(Remainder(xa, xb)))
  }

  // ------------------------------------------------------------- properties

  /** What the three operations should answer: the exact integer when there is
      one, the double otherwise. */
  function Ideal(op: Operator, xa: Int64, xb: Int64): Number
    requires op in {Add, Sub, Mul}
    requires op == Sub ==> xb != MIN_INT64
  {
    match op
    case Add => if Fits(xa + xb) then Integer(xa + xb) else DoubleSum(xa, xb)
    case Sub => if Fits(xa - xb) then Integer(xa - xb) else DoubleSum(xa, 0 - xb)
    case Mul => if Fits(xa * xb) then Integer(xa * xb) else DoubleProduct(xa, xb)
  }

  lemma QuotientRemainder(a: int, b: int)
    requires b != 0
    ensures a == b * Quotient(a, b) + Remainder(a, b)
    ensures b > 0 ==> -b < Remainder(a, b) < b
    ensures b < 0 ==> b < Remainder(a, b) < -b
    ensures a >= 0 ==> Remainder(a, b) >= 0
    ensures a <= 0 ==> Remainder(a, b) <= 0
  {
    var m, n := if a < 0 then -a else a, if b < 0 then -b else b;
    assert m == n * (m / n) + m % n;
    assert b * Quotient(a, b) == (if a < 0 then -(n * (m / n)) else n * (m / n));
  }

  /** Dividing the wrapped product back finds the factor only if nothing was lost. */
  lemma DividingBackDetectsOverflow(xa: Int64, xb: Int64)
    requires xb != 0
    ensures Quotient(Wrap(xa * xb), xb) == xa ==> Fits(xa * xb)
  {
    var xr := Wrap(xa * xb);
    var k := WrapTurns(xa * xb);
    if Quotient(xr, xb) == xa {
      var rest := RestBelowDivisor(xr, xb, xa);
      SmallRestMeansNoTurn(xa * xb, xr, k, rest);
    }
  }

  lemma RestBelowDivisor(xr: int, xb: Int64, q: int) returns (rest: int)
    requires xb != 0 && Quotient(xr, xb) == q
    ensures xr == q * xb + rest && -0x8000_0000_0000_0000 < rest < 0x8000_0000_0000_0000
  {
    QuotientRemainder(xr, xb);
    rest := Remainder(xr, xb);
  }

  lemma SmallRestMeansNoTurn(p: int, xr: int, k: int, rest: int)
    requires xr == p - k * 0x1_0000_0000_0000_0000 && xr == p + rest
    requires -0x8000_0000_0000_0000 < rest < 0x8000_0000_0000_0000
    ensures xr == p
  {
  }

  /** A quotient is determined by any remainder smaller than the divisor. */
  lemma QuotientExact(xa: int, xb: int)
    requires xb != 0
    ensures Quotient(xa * xb, xb) == xa
  {
    var m, n := if xa < 0 then 0 - xa else xa, if xb < 0 then 0 - xb else xb;
    ExactDivision(m, n);
    assert (if xa * xb < 0 then 0 - xa * xb else xa * xb) == m * n;
    ProductSign(xa, xb);
  }

  lemma ExactDivision(m: nat, n: nat)
    requires n > 0
    ensures (m * n) / n == m
  {
    var q := (m * n) / n;
    DivisionLaw(m * n, n);
    assert n * (m - q) == m * n - n * q;
    SmallMultiple(n, m - q);
  }

  lemma DivisionLaw(m: nat, n: nat)
    requires n > 0
    ensures m == n * (m / n) + m % n && 0 <= m % n < n
  {
  }

  lemma SmallMultiple(n: nat, d: int)
    requires 0 < n + n * d && n * d < n
    ensures d == 0
  {
  }

  lemma QuotientUnique(n: nat, d: nat, q: nat, r: nat)
    requires d > 0 && n == d * q + r && r < d
    ensures n / d == q && n % d == r
  {
    DivisionLaw(n, d);
    assert d * (q - n / d) == d * q - d * (n / d);
    SmallMultiple(d, q - n / d);
  }

  /** A product keeps the sign its factors promise when it fits. */
  lemma ProductSign(xa: int, xb: int)
    requires xb != 0
    ensures xa != 0 ==> (xa * xb < 0) == ((xa < 0) != (xb < 0))
  {
  }

  /** Addition and multiplication answer with an integer exactly when the true
      result is an int64, and that integer is the true result. */
  lemma {:induction false} AddMulExact(op: Operator, xa: Int64, xb: Int64)
    requires op in {Add, Mul}
    ensures CalculateIntegers(op, xa, xb) == Ideal(op, xa, xb)
  {
    if op == Mul && xa != 0 && xb != 0 {
      var p := xa * xb;
      if Fits(p) {
        QuotientExact(xa, xb);
        ProductSign(xa, xb);
      } else {
        DividingBackDetectsOverflow(xa, xb);
        var xr := Wrap(p);
        // the one quotient that itself wraps
        if Quotient(xr, xb) != Wrap(Quotient(xr, xb)) {
          QuotientOverflows(xr, xb);
          assert xb == -1;
          assert xa == MIN_INT64;
          assert (xr < 0) != ((xa < 0) != (xb < 0));
        }
      }
    }
  }

  lemma QuotientOverflows(a: Int64, b: Int64)
    requires b != 0
    ensures Fits(Quotient(a, b)) <==> !(a == MIN_INT64 && b == -1)
  {
    var m, n := if a < 0 then 0 - a else a, if b < 0 then 0 - b else b;
    HalvesAtLeast(m, n);
  }

  lemma HalvesAtLeast(m: nat, n: nat)
    requires n > 0
    ensures 0 <= m / n <= m
    ensures n >= 2 ==> 2 * (m / n) <= m
  {
    var q: nat := m / n;
    DivisionLaw(m, n);
    MulGrows(n, q, 1);
    if n >= 2 {
      MulGrows(n, q, 2);
    }
  }

  lemma MulGrows(n: nat, q: nat, c: nat)
    requires c <= n
    ensures n * q >= c * q
  {
    assert n * q == c * q + (n - c) * q;
  }

  /** Subtraction is exact for every right operand but one: the smallest int64 has
      no negation, so `x - MIN` is computed as `x + MIN`. */
  lemma SubExactIff(xa: Int64, xb: Int64)
    ensures xb != MIN_INT64 ==> CalculateIntegers(Sub, xa, xb) == Ideal(Sub, xa, xb)
    ensures xb == MIN_INT64 ==>
              (CalculateIntegers(Sub, xa, xb).Integer? <==> !Fits(xa - xb))
  {
    if xb == MIN_INT64 {
      assert Wrap(0 - xb) == MIN_INT64;
    }
  }

  /** Division and remainder fit together on every pair of operands, and the
      quotient is the true one except for the smallest int64 over -1. */
  lemma {:induction false} DivModTogether(xa: Int64, xb: Int64)
    ensures xb == 0 ==> CalculateIntegers(Div, xa, xb).Null? && CalculateIntegers(Mod, xa, xb).Null?
    ensures xb != 0 ==>
            var q, r := CalculateIntegers(Div, xa, xb), CalculateIntegers(Mod, xa, xb);
            && q.Integer? && r.Integer?
            && Wrap(xb * q.i + r.i) == xa
            && 0 - (if xb < 0 then 0 - xb else xb) < r.i < (if xb < 0 then 0 - xb else xb)
            && (xa >= 0 ==> r.i >= 0) && (xa <= 0 ==> r.i <= 0)
            && (q.i == Quotient(xa, xb) <==> !(xa == MIN_INT64 && xb == -1))
  {
    if xb != 0 {
      QuotientRemainder(xa, xb);
      QuotientOverflows(xa, xb);
      if xa == MIN_INT64 && xb == -1 {
        assert Quotient(xa, xb) == 0x8000_0000_0000_0000;
      }
    }
  }
}
