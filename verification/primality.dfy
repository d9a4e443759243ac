/** The benchmark's workload: a trial-division primality test (`Main.IsPrime`). */
module Primality {

  /** `d` divides `n` exactly, by the remainder test of `Main.IsPrime` `n % d == 0`. */
  predicate Divides(d: int, n: int)
    requires d > 0
  {
    n % d == 0
  }

  /** Textbook primality, the independent reference for `IsPrime`:
      at least 2 and no divisor strictly between 1 and the number itself. */
  ghost predicate Prime(n: int) {
    n >= 2 && forall d :: 2 <= d < n ==> !Divides(d, n)
  }

  /** Trial division of `n` by every candidate `i, i+1, ...` while `i * i <= n`.
      `Main.IsPrime` bounds the loop by `floor(sqrt(n))`; for a non-negative
      candidate `i <= floor(sqrt(n))` holds exactly when `i * i <= n`, so the
      integer condition is used instead of floating point. */
  function NoDivisorFrom(n: int, i: int): (r: bool)
    requires i >= 2
    ensures r <==> forall d :: i <= d && d * d <= n ==> !Divides(d, n)
    decreases n - i
  {
    if i * i > n then
      assert forall d :: i <= d ==> i * i <= d * d by {
        forall d | i <= d
          ensures i * i <= d * d
        {
          SquareMonotone(i, d);
        }
      }
      true
    else
      assert i <= i * i;
      if Divides(i, n) then false
      else NoDivisorFrom(n, i + 1)
  }

  /** `Main.IsPrime`: 1 is not prime, 2 is, and every other number is
      accepted when trial division from 2 finds no divisor. */
  function IsPrime(number: int): bool {
    if number == 1 then false
    else if number == 2 then true
    else NoDivisorFrom(number, 2)
  }

  /** `IsPrime` agrees with textbook primality on every number a caller
      passes (`n >= 1`). For `n <= 0` the trial-division loop never runs, so
      `Main.IsPrime` answers `true`. */
  lemma IsPrimeMeansPrime(n: int)
    ensures n >= 1 ==> (IsPrime(n) <==> Prime(n))
    ensures n <= 0 ==> IsPrime(n)
  {
    if n >= 3 {
      NoSmallDivisorIffPrime(n);
    }
  }

  lemma SquareMonotone(a: int, b: int)
    requires 0 <= a <= b
    ensures a * a <= b * b
  {
    assert a * a <= a * b;
    assert a * b <= b * b;
  }

  /** Sign facts about a product with a positive factor. */
  lemma MulSign(e: int, m: int)
    requires e > 0
    ensures m >= 1 ==> e * m >= e
    ensures m <= -1 ==> e * m <= -e
  {
    assert e * m - e == e * (m - 1);
    assert e * m + e == e * (m + 1);
  }

  /** A multiple of `e` leaves no remainder when divided by `e`. */
  lemma ModOfMultiple(e: int, q: int)
    requires e > 0 && q >= 0
    ensures (e * q) % e == 0
  {
    var n := e * q;
    var p := n / e;
    assert n == p * e + n % e;
    assert e * (q - p) == n % e;
    MulSign(e, q - p);
  }

  /** A number with a divisor in `[2, n-1]` also has one whose square is at
      most `n`: the smaller of the divisor and its cofactor. This is why
      trial division may stop at the square root. */
  lemma {:induction false} SmallDivisor(n: int, d: int)
    requires 2 <= d < n && Divides(d, n)
    ensures exists k :: 2 <= k && k * k <= n && Divides(k, n)
  {
    var e := n / d;
    assert n == d * e;
    MulSign(d, e);
    MulSign(d, e - 1);
    assert e >= 2;
    if d <= e {
      assert d * d <= d * e;
    } else {
      assert e * e <= e * d;
      ModOfMultiple(e, d);
      assert Divides(e, n);
    }
  }

  /** For `n >= 3`, trial division from 2 up to the square root decides primality. */
  lemma {:induction false} NoSmallDivisorIffPrime(n: int)
    requires n >= 3
    ensures NoDivisorFrom(n, 2) <==> Prime(n)
  {
    if NoDivisorFrom(n, 2) {
      forall d | 2 <= d < n
        ensures !Divides(d, n)
      {
        if Divides(d, n) {
          SmallDivisor(n, d);
        }
      }
    } else {
      var d :| 2 <= d && d * d <= n && Divides(d, n);
      assert d < d * d;
    }
  }
}
