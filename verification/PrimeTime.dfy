/** Trial division by numbers of the form 6k - 1 and 6k + 1.
    Models IsPrime of internal/primetime/primetime.go, with an exact integer square root. */
module PrimeTime {
  import opened Arithmetic

  predicate Divides(d: int, n: int)
    requires d != 0
  {
    n % d == 0
  }

  ghost predicate Prime(n: int) {
    n >= 2 && forall d :: 2 <= d < n ==> !Divides(d, n)
  }

  /** The integer part of the square root. */
  function Sqrt(n: nat): (r: nat)
    ensures r * r <= n < (r + 1) * (r + 1)
  {
    if n == 0 then 0
    else
      var r := Sqrt(n - 1);
      if (r + 1) * (r + 1) <= n then r + 1 else r
  }

  /** No number from 2 up to but not including bound divides n. */
  ghost predicate NoDivisorBelow(n: int, bound: int) {
    forall d :: 2 <= d < bound ==> !Divides(d, n)
  }

  /** A divisor of a divisor divides. */
  lemma DividesThrough(a: int, b: int, n: int)
    requires a > 0 && b > 0 && Divides(a, b) && Divides(b, n)
    ensures Divides(a, n)
  {
    var x, y := b / a, n / b;
    assert b == a * x && n == b * y;
    assert n == a * (x * y);
    MultipleDivides(a, x * y);
  }

  lemma MultipleDivides(a: int, x: int)
    requires a > 0
    ensures Divides(a, a * x)
  {
    var n := a * x;
    assert n == a * (n / a) + n % a;
    NoRemainder(a, x, n / a, n % a);
  }

  lemma NoRemainder(a: int, x: int, q: int, r: int)
    requires 0 <= r < a && a * x == a * q + r
    ensures r == 0
  {
    assert a * (x - q) == r;
    MulAtLeast(a, x - q);
  }

  lemma MulAtLeast(a: int, k: int)
    requires a > 0
    ensures k >= 1 ==> a * k >= a
    ensures k <= -1 ==> a * k <= -a
  {
  }

  /** A composite number has a divisor that is not above its square root. */
  lemma SmallDivisor(n: int)
    requires n >= 2 && NoDivisorBelow(n, Sqrt(n) + 1)
    ensures Prime(n)
  {
    var r := Sqrt(n);
    forall d | 2 <= d < n
      ensures !Divides(d, n)
    {
      if Divides(d, n) {
        var e := n / d;
        assert n == d * e;
        assert e >= 2 by {
          if e <= 1 { ProductMonotone(d, if e < 0 then 0 else e, d, 1); }
        }
        assert d > r;
        MultipleDivides(e, d);
        assert Divides(e, n);
        assert e > r;
        ProductMonotone(r + 1, r + 1, d, e);
        assert false;
      }
    }
  }

  /** A multiple of a number that does not divide n does not divide it either. */
  lemma MultipleDoesNot(a: int, q: int, n: int)
    requires a > 0 && q > 0 && a * q > 0 && !Divides(a, n)
    ensures !Divides(a * q, n)
  {
    MultipleDivides(a, q);
    if Divides(a * q, n) { DividesThrough(a, a * q, n); }
  }

  /** Of six numbers in a row, those that are not 6k - 1 or 6k + 1 are multiples of 2 or 3. */
  lemma NextSix(n: int, i: int)
    requires i >= 5 && i % 6 == 5 && NoDivisorBelow(n, i)
    requires !Divides(2, n) && !Divides(3, n) && !Divides(i, n) && !Divides(i + 2, n)
    ensures NoDivisorBelow(n, i + 6)
  {
    hide Divides;
    var k := i / 6;
    assert i == 6 * k + 5;
    MultipleDoesNot(2, 3 * k + 3, n);
    MultipleDoesNot(2, 3 * k + 4, n);
    MultipleDoesNot(3, 2 * k + 3, n);
    MultipleDoesNot(2, 3 * k + 5, n);
  }

  lemma BelowFive(n: int)
    requires !Divides(2, n) && !Divides(3, n)
    ensures NoDivisorBelow(n, 5)
  {
    if Divides(4, n) { DividesThrough(2, 4, n); }
  }

  /** Up to the root, even i + 2 is below n. */
  lemma BelowRoot(n: nat, i: nat)
    requires 5 <= i <= Sqrt(n)
    ensures i + 2 < n
  {
    ProductMonotone(5, i, Sqrt(n), Sqrt(n));
  }

  /** IsPrime is right for every number: the numbers it skips cannot be the only divisors, and dividing
      by i + 2, which may lie above the root, never rejects a prime. */
  method IsPrime(n: int) returns (prime: bool)
    ensures prime <==> Prime(n)
  {
    if n <= 1 {
      return false;
    }
    if n <= 3 {
      return true;
    }
    if n % 2 == 0 || n % 3 == 0 {
      assert Divides(2, n) || Divides(3, n);
      return false;
    }
    var sqrtN := Sqrt(n);
    var i := 5;
    BelowFive(n);
    while i <= sqrtN
      invariant i >= 5 && i % 6 == 5
      invariant NoDivisorBelow(n, i)
    {
      if n % i == 0 || n % (i + 2) == 0 {
        BelowRoot(n, i);
        assert Divides(i, n) || Divides(i + 2, n);
        return false;
      }
      NextSix(n, i);
      i := i + 6;
    }
    SmallDivisor(n);
    return true;
  }
}
