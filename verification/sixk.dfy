/** `is_prime` of TP1_202100722_202100718/main.py: trial division by 2, 3
    and the pairs 6k-1, 6k+1. The scan of lines 18-22 stops once `i * i`
    passes a bound; the code compares against the integer square root of
    `n`, where comparing against `n` itself was evidently meant. Both bounds
    are modelled: `IsPrimeAsWritten` (the one the code uses) and
    `IsPrimeCorrected`. */
module SixK {
  import opened Arith

  /** The loop of lines 18-22 from candidate `i`, stopping once `i * i`
      exceeds `bound`. The candidate stays 5 modulo 6 as it steps by 6. */
  function Scan(n: int, i: int, bound: int): (prime: bool)
    requires i >= 5 && i % 6 == 5
    decreases bound - i
  {
    if i * i > bound then true
    else if n % i == 0 || n % (i + 2) == 0 then false
    else
      SelfBelowSquare(i);
      Scan(n, i + 6, bound)
  }

  lemma SelfBelowSquare(i: int)
    requires i >= 1
    ensures i <= i * i
  {
    MulMono(i, 1, i);
  }

  /** Lines 12-23 with the loop bounded by `bound`. */
  function SixKTest(n: int, bound: int): bool {
    if n <= 1 then false
    else if n <= 3 then true
    else if n % 2 == 0 || n % 3 == 0 then false
    else Scan(n, 5, bound)
  }

  /** The test as written: the loop runs while `i * i <= int(math.sqrt(n))`. */
  function IsPrimeAsWritten(n: int): (prime: bool)
    ensures n <= 1 ==> !prime
    ensures n == 2 || n == 3 ==> prime
    ensures n > 3 && (n % 2 == 0 || n % 3 == 0) ==> !prime
  {
    SixKTest(n, if n <= 3 then 0 else FloorSqrt(n))
  }

  /** The test with the bound the docstring's promise needs: the loop runs
      while `i * i <= n`. */
  function IsPrimeCorrected(n: int): (prime: bool)
    ensures n <= 1 ==> !prime
    ensures n == 2 || n == 3 ==> prime
    ensures n > 3 && (n % 2 == 0 || n % 3 == 0) ==> !prime
  {
    SixKTest(n, n)
  }

  /** A `False` from the scan names a proper divisor of `n`, whenever the
      bound does not exceed `n`. */
  lemma {:induction false} ScanSound(n: int, i: int, bound: int)
    requires i >= 5 && i % 6 == 5 && bound <= n
    ensures !Scan(n, i, bound) ==> !IsPrime(n)
    decreases bound - i
  {
    if i * i <= bound {
      ScanStep(n, i, bound);
      assert i + 2 < i * i by {
        MulMono(i, 2, i);
      }
      if n % i == 0 {
        ProperDivisorNotPrime(i, n);
      } else if n % (i + 2) == 0 {
        ProperDivisorNotPrime(i + 2, n);
      } else {
        ModShift(i, 6, 1);
        ScanSound(n, i + 6, bound);
      }
    }
  }

  /** The scan from `i` finds every divisor `p >= i` of the form i+6j or
      i+6j+2 whose square is within the bound. */
  lemma {:induction false} ScanFinds(n: int, i: int, bound: int, p: int)
    requires i >= 5 && i % 6 == 5
    requires p >= i && ((p - i) % 6 == 0 || (p - i) % 6 == 2)
    requires Divides(p, n) && p * p <= bound
    ensures !Scan(n, i, bound)
    decreases bound - i
  {
    SquareMono(i, p);
    ScanStep(n, i, bound);
    if n % i != 0 && n % (i + 2) != 0 {
      NextCandidates(n, i, p);
      ScanFinds(n, i + 6, bound, p);
    }
  }

  /** While `i * i` is within the bound, the scan tests `i` and `i + 2`
      and otherwise moves on to `i + 6`. */
  lemma ScanStep(n: int, i: int, bound: int)
    requires i >= 5 && i % 6 == 5 && i * i <= bound
    ensures i <= bound
    ensures Scan(n, i, bound) == if n % i == 0 || n % (i + 2) == 0 then false else Scan(n, i + 6, bound)
  {
    SelfBelowSquare(i);
  }

  /** A divisor the candidates `i` and `i + 2` miss lies at or beyond the
      next pair, in the same position modulo 6. */
  lemma NextCandidates(n: int, i: int, p: int)
    requires i >= 5 && i % 6 == 5
    requires p >= i && ((p - i) % 6 == 0 || (p - i) % 6 == 2)
    requires Divides(p, n) && n % i != 0 && n % (i + 2) != 0
    ensures p >= i + 6 && (i + 6) % 6 == 5
    ensures (p - (i + 6)) % 6 == 0 || (p - (i + 6)) % 6 == 2
  {
    assert p != i && p != i + 2;
    ModShift(i, 6, 1);
    ModShift(p - (i + 6), 6, 1);
  }

  /** A number coprime to 6 is 5 or 7 modulo 6, counted from 5. */
  lemma CoprimeToSix(p: int)
    requires p % 2 != 0 && p % 3 != 0
    ensures (p - 5) % 6 == 0 || (p - 5) % 6 == 2
  {
    var r := p % 6;
    assert p == r + 6 * (p / 6);
    ModShift(r, 2, 3 * (p / 6));
    ModShift(r, 3, 2 * (p / 6));
    ModShift(p - 5, 6, 0);
    assert p - 5 == (r - 5) + 6 * (p / 6);
    ModShift(r - 5, 6, p / 6);
  }

  /** The checks of lines 12-17 that answer before the loop: each `False`
      names a proper divisor. */
  lemma EarlyFalseIsSound(n: int)
    requires n > 3 && (n % 2 == 0 || n % 3 == 0)
    ensures !IsPrime(n)
  {
    if n % 2 == 0 {
      ProperDivisorNotPrime(2, n);
    } else {
      ProperDivisorNotPrime(3, n);
    }
  }

  /** A `False` from the test as written is always right: each reason it
      gives names a divisor of `n`. */
  lemma AsWrittenFalseIsSound(n: int)
    ensures !IsPrimeAsWritten(n) ==> !IsPrime(n)
  {
    if n > 3 && n % 2 != 0 && n % 3 != 0 {
      RootBelow(n);
      BoundedScanSound(n, FloorSqrt(n));
    } else if n > 3 {
      EarlyFalseIsSound(n);
    }
  }

  /** Past the early checks, the test with any bound up to `n` answers
      `False` only for a number with a proper divisor. */
  lemma BoundedScanSound(n: int, bound: int)
    requires n > 3 && n % 2 != 0 && n % 3 != 0 && bound <= n
    ensures !SixKTest(n, bound) ==> !IsPrime(n)
  {
    ScanSound(n, 5, bound);
  }

  /** A composite number coprime to 6 has a divisor the scan up to `n` finds. */
  lemma {:induction false} ScanFindsComposite(n: int)
    requires n > 3 && n % 2 != 0 && n % 3 != 0 && !IsPrime(n)
    ensures !Scan(n, 5, n)
  {
    LeastFactorFacts(n);
    var p := LeastFactor(n);
    assert p % 2 != 0 by {
      if p % 2 == 0 {
        DividesTrans(2, p, n);
      }
    }
    assert p % 3 != 0 by {
      if p % 3 == 0 {
        DividesTrans(3, p, n);
      }
    }
    CoprimeToSix(p);
    ScanFinds(n, 5, n, p);
  }

  /** The corrected test answers `True` exactly for the primes. */
  lemma {:induction false} CorrectedIsExact(n: int)
    ensures IsPrimeCorrected(n) <==> IsPrime(n)
  {
    if n > 3 && n % 2 != 0 && n % 3 != 0 {
      ScanSound(n, 5, n);
      if !IsPrime(n) {
        ScanFindsComposite(n);
      }
    } else if n > 3 {
      EarlyFalseIsSound(n);
    } else if n == 3 {
      assert !Divides(2, 3);
    }
  }

  /** The bound as written lets 25 = 5 * 5 through: `int(math.sqrt(25))` is
      5, so the loop body never runs. */
  lemma AsWrittenAcceptsTwentyFive()
    ensures IsPrimeAsWritten(25) && !IsPrime(25)
  {
    var r := FloorSqrt(25);
    if r <= 4 {
      SquareMono(r + 1, 5);
    } else if r >= 6 {
      SquareMono(6, r);
    }
    assert r == 5;
    ProperDivisorNotPrime(5, 25);
  }
}
