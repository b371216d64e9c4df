/** Integer facts the prime tests rest on: divisibility, primality, the
    integer square root that stands in for `int(math.sqrt(n))`, and the
    least factor of a number. */
module Arith {

  /** `d` is a positive divisor of `n`. */
  predicate Divides(d: int, n: int) {
    d > 0 && n % d == 0
  }

  /** `n` is prime: at least 2, with no divisor strictly between 1 and `n`. */
  predicate IsPrime(n: int) {
    n >= 2 && forall d :: 2 <= d < n ==> !Divides(d, n)
  }

  /** A divisor strictly between 1 and `n` makes `n` composite. */
  lemma ProperDivisorNotPrime(d: int, n: int)
    requires 2 <= d < n && Divides(d, n)
    ensures !IsPrime(n)
  {
  }

  /** Division is determined by any decomposition `a == d * q + r` with a
      remainder in range. */
  lemma DivModUnique(a: int, d: int, q: int, r: int)
    requires d > 0 && a == d * q + r && 0 <= r < d
    ensures a / d == q && a % d == r
  {
    var q', r' := a / d, a % d;
    assert a == d * q' + r';
    if q' < q {
      MulAtLeast(d, q - q');
    } else if q' > q {
      MulAtLeast(d, q' - q);
    }
  }

  lemma MulAtLeast(d: int, k: int)
    requires d > 0 && k >= 1
    ensures d * k >= d
  {
    assert d * k == d * (k - 1) + d;
  }

  /** Adding a multiple of `d` does not change the remainder modulo `d`. */
  lemma ModShift(x: int, d: int, k: int)
    requires d > 0
    ensures (x + d * k) % d == x % d
  {
    DivModUnique(x + d * k, d, x / d + k, x % d);
  }

  /** Divisibility is transitive. */
  lemma {:induction false} DividesTrans(a: int, b: int, c: int)
    requires Divides(a, b) && Divides(b, c)
    ensures Divides(a, c)
  {
    var x := b / a;
    var y := c / b;
    assert b == a * x;
    assert c == b * y;
    assert c == a * (x * y);
    DivModUnique(c, a, x * y, 0);
  }

  /** The integer square root: the largest `r` with `r * r <= n`. It stands
      for `int(math.sqrt(n))` and `math.floor(math.sqrt(n))`, whose floating
      point rounding is left out. */
  function FloorSqrt(n: nat): (r: nat)
    ensures r * r <= n < (r + 1) * (r + 1)
  {
    if n == 0 then 0
    else
      var s := FloorSqrt(n - 1);
      assert (s + 1) * (s + 1) <= n ==> n < (s + 2) * (s + 2) by {
        assert (s + 2) * (s + 2) == (s + 1) * (s + 1) + 2 * s + 3;
      }
      if (s + 1) * (s + 1) <= n then s + 1 else s
  }

  /** Squares are monotone on the naturals. */
  lemma SquareMono(a: int, b: int)
    requires 0 <= a <= b
    ensures a * a <= b * b
  {
    assert a * a <= a * b;
    assert a * b <= b * b;
  }

  /** `d * d <= n` exactly when `d` is at most the integer square root. */
  lemma BelowRoot(d: nat, n: nat)
    ensures d * d <= n <==> d <= FloorSqrt(n)
  {
    var r := FloorSqrt(n);
    if d <= r {
      SquareMono(d, r);
    } else {
      SquareMono(r + 1, d);
    }
  }

  /** The root of a number of at least 2 is below the number. */
  lemma RootBelow(n: nat)
    requires n >= 2
    ensures FloorSqrt(n) < n
  {
    var r := FloorSqrt(n);
    if r >= n {
      SquareMono(n, r);
    }
  }

  /** The least divisor of `n` that is at least `d`. */
  function LeastFactorFrom(n: int, d: int): (p: int)
    requires 2 <= d <= n
    ensures d <= p <= n && Divides(p, n)
    ensures forall e :: d <= e < p ==> !Divides(e, n)
    decreases n - d
  {
    if n % d == 0 then d else LeastFactorFrom(n, d + 1)
  }

  /** The least factor of `n` above 1. */
  function LeastFactor(n: int): int
    requires n >= 2
  {
    LeastFactorFrom(n, 2)
  }

  /** The least factor is prime, and for a composite number its square is at
      most the number: the cofactor is a divisor no smaller than it. */
  lemma {:induction false} LeastFactorFacts(n: int)
    requires n >= 2
    ensures IsPrime(LeastFactor(n))
    ensures !IsPrime(n) ==> LeastFactor(n) * LeastFactor(n) <= n
  {
    var p := LeastFactor(n);
    forall d | 2 <= d < p
      ensures !Divides(d, p)
    {
      if Divides(d, p) {
        DividesTrans(d, p, n);
      }
    }
    if !IsPrime(n) {
      var d :| 2 <= d < n && Divides(d, n);
      var q := n / p;
      assert n == p * q;
      if q <= 1 {
        if q <= 0 {
          MulNonPos(p, q);
        }
        assert false;
      }
      DivModUnique(n, q, p, 0);
      assert Divides(q, n);
      assert q >= p;
      assert p * p <= p * q by {
        MulMono(p, p, q);
      }
    }
  }

  lemma MulNonPos(p: int, q: int)
    requires p > 0 && q <= 0
    ensures p * q <= 0
  {
  }

  lemma MulMono(p: int, a: int, b: int)
    requires p > 0 && a <= b
    ensures p * a <= p * b
  {
    assert p * b == p * a + p * (b - a);
  }

  /** A composite number of at least 2 has a prime factor at most its
      integer square root. */
  lemma {:induction false} CompositeHasSmallPrimeFactor(n: int)
    requires n >= 2 && !IsPrime(n)
    ensures exists p :: 2 <= p <= FloorSqrt(n) && IsPrime(p) && Divides(p, n)
  {
    LeastFactorFacts(n);
    BelowRoot(LeastFactor(n), n);
  }

  /** Neither 2, 3, 5 nor 7 divides `x`: `x` sits on the mod-210 wheel. */
  predicate CoprimeTo210(x: int) {
    x % 2 != 0 && x % 3 != 0 && x % 5 != 0 && x % 7 != 0
  }

  /** Being on the wheel depends only on the residue modulo 210. */
  lemma {:induction false} WheelPeriodic(x: int, m: int)
    ensures CoprimeTo210(x + 210 * m) <==> CoprimeTo210(x)
  {
    ModShift(x, 2, 105 * m);
    ModShift(x, 3, 70 * m);
    ModShift(x, 5, 42 * m);
    ModShift(x, 7, 30 * m);
  }

  /** A number above 7 off the wheel has 2, 3, 5 or 7 as a proper divisor. */
  lemma OffWheelComposite(x: int)
    requires x > 7 && !CoprimeTo210(x)
    ensures !IsPrime(x)
  {
    if x % 2 == 0 {
      ProperDivisorNotPrime(2, x);
    } else if x % 3 == 0 {
      ProperDivisorNotPrime(3, x);
    } else if x % 5 == 0 {
      ProperDivisorNotPrime(5, x);
    } else {
      ProperDivisorNotPrime(7, x);
    }
  }

  /** A prime above 7 is on the wheel. */
  lemma PrimeOnWheel(x: int)
    requires x > 7 && IsPrime(x)
    ensures CoprimeTo210(x)
  {
    if !CoprimeTo210(x) {
      OffWheelComposite(x);
    }
  }
}
