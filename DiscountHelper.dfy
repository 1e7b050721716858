/** The discount engine: a base rate chosen by a first-match chain of
    total-amount tiers, two conditional bonuses, a 20% cap, and the
    discount as the total times the rate truncated toward zero. Rates are
    whole percentages. */
module DiscountHelper {
  import opened Models

  predicate Divides(d: int, n: int) {
    d != 0 && n % d == 0
  }

  /** Primality over the integers: greater than one and no divisor strictly
      between one and itself. */
  predicate Prime(n: int) {
    n > 1 && forall d :: 1 < d < n ==> !Divides(d, n)
  }

  /** `(long)Math.Sqrt(n)`, taken as the exact integer square root. */
  function ISqrt(n: nat): (r: nat)
    ensures r * r <= n < (r + 1) * (r + 1)
  {
    if n < 4 then (if n == 0 then 0 else 1)
    else
      var h := ISqrt(n / 4);
      SqrtDoubling(n, h);
      if (2 * h + 1) * (2 * h + 1) <= n then 2 * h + 1 else 2 * h
  }

  /** The root of n / 4, doubled, is within one of the root of n. */
  lemma SqrtDoubling(n: nat, h: nat)
    requires h * h <= n / 4 < (h + 1) * (h + 1)
    ensures (2 * h) * (2 * h) <= n < (2 * h + 2) * (2 * h + 2)
  {
    var q := n / 4;
    assert (2 * h) * (2 * h) == 4 * (h * h);
    assert (2 * h + 2) * (2 * h + 2) == 4 * ((h + 1) * (h + 1));
    assert q + 1 <= (h + 1) * (h + 1);
  }

  lemma SquareMonotonic(a: int, b: int)
    requires 0 <= a <= b
    ensures a * a <= b * b
  {
    assert a * a <= a * b;
    assert a * b <= b * b;
  }

  /** A product with an even factor is even. */
  lemma EvenProduct(a: int, b: int)
    ensures a % 2 == 0 ==> (a * b) % 2 == 0 && (b * a) % 2 == 0
  {
    var h := a / 2;
    assert a == 2 * h + a % 2;
    assert a % 2 == 0 ==> a * b == 2 * (h * b);
  }

  /** Both factors of an odd product are odd. */
  lemma OddFactors(a: int, b: int)
    requires a * b % 2 == 1
    ensures a % 2 == 1 && b % 2 == 1
  {
    EvenProduct(a, b);
    EvenProduct(b, a);
  }

  /** A divisor strictly between 1 and n splits n into two factors, the
      smaller one above 1. */
  lemma Cofactors(n: int, d: int) returns (m: int, o: int)
    requires 1 < d < n && Divides(d, n)
    ensures 1 < m <= o && n == m * o
  {
    var e := n / d;
    assert n == d * e;
    ProductBelowFactor(d, e);
    if d <= e {
      m, o := d, e;
    } else {
      m, o := e, d;
    }
  }

  lemma ProductBelowFactor(a: int, b: int)
    requires a > 0
    ensures b <= 1 ==> a * b <= a
  {
    if b <= 1 {
      assert a * b <= a * 1;
    }
  }

  /** An odd composite n has an odd divisor m with 3 <= m and m * m <= n. */
  lemma SmallOddDivisor(n: int, d: int) returns (m: int)
    requires n % 2 == 1 && 1 < d < n && Divides(d, n)
    ensures 3 <= m && m % 2 == 1 && m * m <= n && Divides(m, n)
  {
    var o;
    m, o := Cofactors(n, d);
    SquareMonotonicRight(m, o);
    OddFactors(m, o);
    MultipleDivides(m, o);
  }

  lemma SquareMonotonicRight(a: int, b: int)
    requires 0 <= a <= b
    ensures a * a <= a * b
  {
  }

  lemma MultipleDivides(m: int, o: int)
    requires m > 0
    ensures Divides(m, m * o)
  {
    var q, r := (m * o) / m, (m * o) % m;
    assert m * o == m * q + r && 0 <= r < m;
    assert m * (o - q) == r;
    ScaledStep(m, o - q);
  }

  lemma ScaledStep(m: int, k: int)
    requires m > 0
    ensures k >= 1 ==> m * k >= m
    ensures k <= -1 ==> m * k <= -m
  {
  }

  /** An odd number with no odd divisor in [3, i), where i * i exceeds it,
      is prime. */
  lemma {:induction false} NoSmallOddDivisorPrime(n: int, i: int)
    requires n >= 3 && n % 2 == 1 && i >= 3 && n < i * i
    requires forall k :: 3 <= k < i && k % 2 == 1 ==> !Divides(k, n)
    ensures Prime(n)
  {
    forall d | 1 < d < n
      ensures !Divides(d, n)
    {
      if Divides(d, n) {
        var m := SmallOddDivisor(n, d);
        if m >= i {
          SquareMonotonic(i, m);
        }
        assert false;
      }
    }
  }

  /** `IsPrime`: rejects n <= 1, accepts 2, rejects other even numbers and
      then tries the odd divisors from 3 up to the square root. */
  method IsPrime(n: int) returns (b: bool)
    ensures b <==> Prime(n)
  {
    if n <= 1 {
      return false;
    }
    if n == 2 {
      return true;
    }
    if n % 2 == 0 {
      assert Divides(2, n);
      return false;
    }
    var boundary := ISqrt(n);
    var i := 3;
    while i <= boundary
      invariant 3 <= i <= boundary + 2 && i % 2 == 1
      invariant forall k :: 3 <= k < i && k % 2 == 1 ==> !Divides(k, n)
    {
      if n % i == 0 {
        BelowRoot(n, i, boundary);
        assert Divides(i, n);
        return false;
      }
      i := i + 2;
    }
    SquareMonotonic(boundary + 1, i);
    NoSmallOddDivisorPrime(n, i);
    return true;
  }

  /** A candidate divisor up to the square root is below n itself. */
  lemma BelowRoot(n: int, i: int, boundary: nat)
    requires 3 <= i <= boundary && boundary * boundary <= n
    ensures 1 < i < n
  {
    SquareMonotonic(i, boundary);
    assert i < 3 * i <= i * i;
  }

  /** C#'s integer division, which truncates toward zero (Dafny's `/` is
      Euclidean and rounds negative quotients down). */
  function TruncDiv100(a: int): (q: int)
    ensures a >= 0 ==> 0 <= 100 * q <= a < 100 * (q + 1)
    ensures a < 0 ==> 100 * (q - 1) < a <= 100 * q <= 0
  {
    if a >= 0 then a / 100 else -((-a) / 100)
  }

  /** The base rate, tested in this order with the first match winning:
      20000..50000 gives 5, else up to 80000 gives 7 (totals below 20000 and
      negative totals included), else up to 120000 gives 10, else 15. */
  function BaseRate(total: int): (rate: int)
    ensures rate == 5 <==> 20000 <= total <= 50000
    ensures rate == 7 <==> total < 20000 || 50000 < total <= 80000
    ensures rate == 10 <==> 80000 < total <= 120000
    ensures rate == 15 <==> 120000 < total
  {
    if 20000 <= total <= 50000 then 5
    else if total <= 80000 then 7
    else if total <= 120000 then 10
    else if total > 120000 then 15
    else 0
  }

  /** +8 for a prime total above 50000. */
  function PrimeBonus(total: int): nat {
    if total > 50000 && Prime(total) then 8 else 0
  }

  /** +10 for a total above 90000 whose last digit is 5. For such totals
      C#'s `%` agrees with Dafny's, both operands being positive. */
  function FiveBonus(total: int): nat {
    if total > 90000 && total % 10 == 5 then 10 else 0
  }

  /** The combined rate, capped at 20. */
  function Rate(total: int): (rate: nat)
    ensures rate in {5, 7, 10, 15, 18, 20}
    ensures rate < 20 ==> rate == BaseRate(total) + PrimeBonus(total) + FiveBonus(total)
    ensures rate == 20 <==> BaseRate(total) + PrimeBonus(total) + FiveBonus(total) >= 20
  {
    var sum := BaseRate(total) + PrimeBonus(total) + FiveBonus(total);
    if sum > 20 then 20 else sum
  }

  /** The discount: total times the rate in percent, truncated toward zero. */
  function Discount(total: int): int {
    TruncDiv100(total * Rate(total))
  }

  /** `CalculateDiscount`: builds the rate step by step, clamps it, and
      truncates the product. */
  method CalculateDiscount(total: Int64) returns (discount: Int64)
    ensures discount == Discount(total)
  {
    var rate := 0;
    if 20000 <= total <= 50000 {
      rate := rate + 5;
    } else if total <= 80000 {
      rate := rate + 7;
    } else if total <= 120000 {
      rate := rate + 10;
    } else if total > 120000 {
      rate := rate + 15;
    }
    if total > 50000 {
      var prime := IsPrime(total);
      if prime {
        rate := rate + 8;
      }
    }
    if total > 90000 && total % 10 == 5 {
      rate := rate + 10;
    }
    if rate > 20 {
      rate := 20;
    }
    DiscountWithinTotal(total);
    discount := TruncDiv100(total * rate);
  }

  /** The two bonuses never both apply: a total ending in 5 is a multiple of
      5 and so, above 50000, not prime. */
  lemma BonusesExclusive(total: int)
    ensures PrimeBonus(total) == 0 || FiveBonus(total) == 0
  {
    if total > 90000 && total % 10 == 5 {
      assert total == 5 * (2 * (total / 10) + 1);
      assert Divides(5, total);
    }
  }

  /** Without the cap the rate would reach at most 25 (base 15 plus the
      larger bonus), and the cap binds only from 80000 up. */
  lemma CapBindsOnlyAbove80000(total: int)
    ensures BaseRate(total) + PrimeBonus(total) + FiveBonus(total) <= 25
    ensures Rate(total) == 20 ==> total > 80000
  {
    BonusesExclusive(total);
  }

  /** For a non-negative total the discount lies between 0 and a fifth of it
      (truncated), so the final amount is never negative; for a negative
      total the rate is 7 and the discount is a non-positive amount no
      larger in size than the total. */
  lemma DiscountWithinTotal(total: int)
    ensures total >= 0 ==> 0 <= Discount(total) <= total / 5 &&
                           total - Discount(total) >= 0
    ensures total < 0 ==> Rate(total) == 7 && total < Discount(total) <= 0
  {
    BonusesExclusive(total);
    if total >= 0 {
      assert total * Rate(total) <= total * 20;
    }
  }

  /** The final amount `total - discount` stays within the range of a C#
      `long`, so the unchecked subtraction never wraps. */
  lemma FinalAmountInRange(total: Int64)
    ensures InInt64(Discount(total)) && InInt64(total - Discount(total))
  {
    DiscountWithinTotal(total);
    var d := Discount(total);
    if total >= 0 {
      assert 0 <= d <= total;
    } else {
      assert total < d <= 0;
    }
  }

  /** Worked values: 20000 at 5%, 10000 at 7%, 50001 (= 3 * 16667, not
      prime) at 7%, 95005 at 10% + 10% capped to 20%, 150000 at 15%. */
  lemma WorkedValues()
    ensures Discount(20000) == 1000
    ensures Discount(10000) == 700
    ensures Discount(50001) == 3500
    ensures Discount(95005) == 19001
    ensures Discount(150000) == 22500
  {
    assert Divides(3, 50001);
    assert Divides(5, 95005);
    assert Divides(2, 150000);
  }
}
