/**
 * Swift's integer operators where they differ from Dafny's.
 *
 * Swift's `/` truncates toward zero and `%` takes the sign of the dividend,
 * while Dafny's `/` and `%` are Euclidean. The money operators are written
 * with these definitions, so the model follows the source literally; the
 * lemma `NonNegativeQuotRem` shows both agree on the non-negative dividends
 * that occur there. Every divisor in the modelled code is the literal 100,
 * so only positive divisors are modelled. Swift's trap on overflow is not
 * modelled: integers are unbounded.
 */
module SwiftInt {

  /** Swift `abs` on an `Int`. */
  function Abs(x: int): (r: nat)
    ensures r == x || r == -x
  {
    if x < 0 then -x else x
  }

  /** Swift `a / b` for a positive divisor: the quotient truncated toward zero. */
  function Quot(a: int, b: int): (r: int)
    requires b > 0
    ensures r == 0 <==> -b < a < b
    ensures r > 0 <==> a >= b
    ensures r < 0 <==> a <= -b
  {
    var n := if a >= 0 then a else -a;
    NaturalQuot(n, b);
    if a >= 0 then a / b else -(-a / b)
  }

  /** Euclidean division of a natural number is zero exactly below the divisor, and never negative. */
  lemma NaturalQuot(n: int, b: int)
    requires n >= 0 && b > 0
    ensures n / b >= 0
    ensures n / b == 0 <==> n < b
  {
    var q := n / b;
    assert n == q * b + n % b && 0 <= n % b < b;
    if q >= 1 {
      MulAtLeast(q, b);
    }
  }

  /** A factor of at least one does not shrink a positive number. */
  lemma MulAtLeast(q: int, b: int)
    requires q >= 1 && b > 0
    ensures q * b >= b
  {
    assert q * b == (q - 1) * b + b;
    assert (q - 1) * b >= 0;
  }

  /** Swift `a % b` for a positive divisor: the remainder, with the sign of the dividend. */
  function Rem(a: int, b: int): (r: int)
    requires b > 0
    ensures -b < r < b
    ensures r == 0 || (r < 0 <==> a < 0)
  {
    if a >= 0 then a % b else -(-a % b)
  }

  /** `Quot` and `Rem` split the dividend exactly, as Swift promises for `/` and `%`. */
  lemma QuotRemSplit(a: int, b: int)
    requires b > 0
    ensures a == Quot(a, b) * b + Rem(a, b)
    ensures Abs(Quot(a, b) * b) <= Abs(a)
  {
    var m := Abs(a);
    assert m == (m / b) * b + m % b;
  }

  /** Truncation is symmetric about zero, which Euclidean division is not. */
  lemma QuotTruncates(a: int, b: int)
    requires b > 0
    ensures Quot(-a, b) == -Quot(a, b)
    ensures Rem(-a, b) == -Rem(a, b)
  {
  }

  /** On a non-negative dividend Swift and Dafny agree. */
  lemma NonNegativeQuotRem(a: int, b: int)
    requires a >= 0 && b > 0
    ensures Quot(a, b) == a / b
    ensures Rem(a, b) == a % b
  {
  }
}
