/** TP1_202100722_202100718/jumps_algorithm.py: trial division against a
    growing list of primes, fed with candidates generated by the mod-210
    wheel. The wall-clock loop of lines 29-31 is left out; one pass of its
    body is `Step`, and `Run` repeats it. */
module JumpsSearch {
  import opened Arith
  import opened Wheel

  /** The list holds positive numbers, so `n % i` never divides by zero. */
  predicate Positive(primes: seq<int>) {
    forall k :: 0 <= k < |primes| ==> primes[k] > 0
  }

  predicate StrictlyIncreasing(s: seq<int>) {
    forall j, k :: 0 <= j < k < |s| ==> s[j] < s[k]
  }

  /** The `for` loop of lines 7-12 with `stop` already computed: a `False`
      names an element of the list, at most `stop`, that divides `n`. */
  function TrialDivision(primes: seq<int>, n: int, stop: int): (r: bool)
    requires Positive(primes)
    ensures !r ==> exists k :: 0 <= k < |primes| && primes[k] <= stop && Divides(primes[k], n)
  {
    if |primes| == 0 then true
    else if primes[0] > stop then true
    else if n % primes[0] == 0 then false
    else
      var rest := TrialDivision(primes[1..], n, stop);
      assert !rest ==> exists k :: 1 <= k < |primes| && primes[k] <= stop && Divides(primes[k], n) by {
        if !rest {
          var k :| 0 <= k < |primes[1..]| && primes[1..][k] <= stop && Divides(primes[1..][k], n);
          assert primes[k + 1] == primes[1..][k];
        }
      }
      rest
  }

  /** `is_prime(n)` of lines 5-12, with `math.floor(math.sqrt(n))` as the
      integer square root; `math.sqrt` rejects negative numbers. A `False`
      names an element of the list whose square is at most `n` and which
      divides `n`; on an increasing list, `True` says no such element
      exists. */
  function ListSaysPrime(primes: seq<int>, n: int): (r: bool)
    requires Positive(primes) && n >= 0
    ensures !r ==> exists k :: 0 <= k < |primes| && primes[k] * primes[k] <= n && Divides(primes[k], n)
    ensures StrictlyIncreasing(primes) ==>
      (r <==> forall k :: 0 <= k < |primes| && primes[k] * primes[k] <= n ==> !Divides(primes[k], n))
  {
    var stop := FloorSqrt(n);
    SquareBelow(primes, n);
    if StrictlyIncreasing(primes) then
      TrialDivisionExact(primes, n, stop);
      TrialDivision(primes, n, stop)
    else
      TrialDivision(primes, n, stop)
  }

  /** An element is at most `floor(sqrt(n))` exactly when its square is at
      most `n`. */
  lemma SquareBelow(primes: seq<int>, n: int)
    requires Positive(primes) && n >= 0
    ensures forall k :: 0 <= k < |primes| ==> (primes[k] <= FloorSqrt(n) <==> primes[k] * primes[k] <= n)
  {
    forall k | 0 <= k < |primes|
      ensures primes[k] <= FloorSqrt(n) <==> primes[k] * primes[k] <= n
    {
      BelowRoot(primes[k], n);
    }
  }

  /** On an increasing list, an element at most `stop` that divides `n` is
      reached before any element passes `stop`, so the answer is `False`. */
  lemma {:induction false} TrialFindsWitness(primes: seq<int>, n: int, stop: int, k: int)
    requires Positive(primes) && StrictlyIncreasing(primes)
    requires 0 <= k < |primes| && primes[k] <= stop && Divides(primes[k], n)
    ensures !TrialDivision(primes, n, stop)
  {
    if k > 0 && n % primes[0] != 0 {
      assert primes[0] < primes[k];
      assert primes[1..][k - 1] == primes[k];
      TrialFindsWitness(primes[1..], n, stop, k - 1);
    }
  }

  /** On an increasing list of positive numbers, the scan answers `False`
      exactly when some element at most `stop` divides `n`. */
  lemma TrialDivisionExact(primes: seq<int>, n: int, stop: int)
    requires Positive(primes) && StrictlyIncreasing(primes)
    ensures !TrialDivision(primes, n, stop) <==>
      exists k :: 0 <= k < |primes| && primes[k] <= stop && Divides(primes[k], n)
  {
    if exists k :: 0 <= k < |primes| && primes[k] <= stop && Divides(primes[k], n) {
      var k :| 0 <= k < |primes| && primes[k] <= stop && Divides(primes[k], n);
      TrialFindsWitness(primes, n, stop, k);
    }
  }

  /** Every element is at least 2. */
  predicate AboveOne(primes: seq<int>) {
    forall k :: 0 <= k < |primes| ==> primes[k] >= 2
  }

  /** A `False` from `is_prime` is right whenever the list holds numbers of
      at least 2: the divisor it found is at most the square root. */
  lemma ListFalseIsSound(primes: seq<int>, n: int)
    requires AboveOne(primes) && n >= 0
    ensures !ListSaysPrime(primes, n) ==> !IsPrime(n)
  {
    if !ListSaysPrime(primes, n) {
      var k :| 0 <= k < |primes| && primes[k] <= FloorSqrt(n) && Divides(primes[k], n);
      if n >= 2 {
        RootBelow(n);
        ProperDivisorNotPrime(primes[k], n);
      }
    }
  }

  /** A `True` is right when the list is increasing and holds every prime up
      to the square root of `n`, and `n` is at least 2. */
  lemma ListTrueIsSound(primes: seq<int>, n: int)
    requires AboveOne(primes) && StrictlyIncreasing(primes) && n >= 2
    requires forall p :: 2 <= p <= FloorSqrt(n) && IsPrime(p) ==> p in primes
    ensures ListSaysPrime(primes, n) ==> IsPrime(n)
  {
    if !IsPrime(n) {
      CompositeHasSmallPrimeFactor(n);
      var p :| 2 <= p <= FloorSqrt(n) && IsPrime(p) && Divides(p, n);
      var k :| 0 <= k < |primes| && primes[k] == p;
      TrialFindsWitness(primes, n, FloorSqrt(n), k);
    }
  }

  /** The state of `find_max_prime` between two passes of its loop: the
      global `primes` list, `max_prime`, the candidate `i` and
      `selected_jump`. */
  datatype Search = Search(primes: seq<int>, maxPrime: int, i: int, selected: int)

  /** Lines 16 and 23-27. */
  const Start := Search([2, 3, 5, 7], 11, 11, 0)

  /** What the loop body needs to run without error: a positive list to
      divide by, a non-negative candidate, and an index into the table. */
  predicate Runnable(s: Search) {
    Positive(s.primes) && s.i >= 0 && 0 <= s.selected < 48
  }

  /** One pass of lines 32-37. */
  function Step(s: Search): (r: Search)
    requires Runnable(s)
    ensures 0 <= r.selected < 48
    ensures r.i > s.i
    ensures |r.primes| >= |s.primes| && r.primes[..|s.primes|] == s.primes
  {
    var found := ListSaysPrime(s.primes, s.i);
    Search(if found then s.primes + [s.i] else s.primes,
           if found then s.i else s.maxPrime,
           s.i + PrimesJumps[s.selected],
           (s.selected + 1) % 48)
  }

  /** What the search keeps true: the candidate is the wheel position of
      `selected` some whole number of turns on; the list is exactly the
      primes below the candidate, in increasing order; `max_prime` is the
      largest of them, or the starting 11, and never passes the candidate. */
  predicate Valid(s: Search) {
    && 0 <= s.selected < 48
    && s.i >= Spokes[s.selected] && (s.i - Spokes[s.selected]) % 210 == 0
    && StrictlyIncreasing(s.primes)
    && (forall k :: 0 <= k < |s.primes| ==> IsPrime(s.primes[k]) && s.primes[k] < s.i)
    && (forall p :: 2 <= p < s.i && IsPrime(p) ==> p in s.primes)
    && |s.primes| > 0
    && s.maxPrime == (if s.primes[|s.primes| - 1] < 11 then 11 else s.primes[|s.primes| - 1])
    && s.maxPrime <= s.i
  }

  lemma ValidRunnable(s: Search)
    requires Valid(s)
    ensures Runnable(s) && AboveOne(s.primes)
  {
  }

  /** The primes below 11 are 2, 3, 5 and 7. */
  lemma StartValid()
    ensures Valid(Start)
  {
    assert Divides(2, 4) && Divides(2, 6) && Divides(2, 8) && Divides(3, 9) && Divides(2, 10);
    forall p | 2 <= p < 11 && IsPrime(p)
      ensures p in Start.primes
    {
      assert p != 4 && p != 6 && p != 8 && p != 9 && p != 10;
    }
  }

  /** Every candidate is coprime to 2, 3, 5 and 7. */
  lemma {:induction false} CandidateOnWheel(s: Search)
    requires Valid(s)
    ensures CoprimeTo210(s.i)
  {
    var m := (s.i - Spokes[s.selected]) / 210;
    assert s.i == Spokes[s.selected] + 210 * m;
    WheelTurns(s.selected, m);
  }

  /** On a valid state the list test agrees with primality. */
  lemma {:induction false} StepTestIsExact(s: Search)
    requires Valid(s)
    ensures ListSaysPrime(s.primes, s.i) <==> IsPrime(s.i)
  {
    ValidRunnable(s);
    JumpsPositive(s.selected);
    SpokeOnWheel(s.selected);
    ListFalseIsSound(s.primes, s.i);
    RootBelow(s.i);
    ListTrueIsSound(s.primes, s.i);
  }

  /** A pass appends the candidate exactly when it is prime, and keeps
      every other part of the list. */
  lemma {:induction false} StepAppendsPrimes(s: Search)
    requires Valid(s)
    ensures Runnable(s)
    ensures Step(s).primes == s.primes + (if IsPrime(s.i) then [s.i] else [])
    ensures Step(s).maxPrime == (if IsPrime(s.i) then s.i else s.maxPrime)
  {
    ValidRunnable(s);
    StepTestIsExact(s);
  }

  /** Nothing between a candidate and the next one is prime. */
  lemma {:induction false} NoPrimeSkipped(s: Search, x: int)
    requires Valid(s) && s.i < x < s.i + PrimesJumps[s.selected]
    ensures !IsPrime(x)
  {
    var m := (s.i - Spokes[s.selected]) / 210;
    assert s.i == Spokes[s.selected] + 210 * m;
    WheelTurns(s.selected, m);
    SpokeOnWheel(s.selected);
    OffWheelComposite(x);
  }

  /** Jumping from a wheel position lands on the next one, a whole number
      of turns on. */
  lemma {:induction false} WheelAdvance(sel: int, i: int)
    requires 0 <= sel < 48 && i >= Spokes[sel] && (i - Spokes[sel]) % 210 == 0
    ensures i + PrimesJumps[sel] >= Spokes[(sel + 1) % 48]
    ensures (i + PrimesJumps[sel] - Spokes[(sel + 1) % 48]) % 210 == 0
  {
    var m := (i - Spokes[sel]) / 210;
    assert i == Spokes[sel] + 210 * m;
    JumpLands(sel);
    if sel < 47 {
      assert (sel + 1) % 48 == sel + 1;
      DivModUnique(i + PrimesJumps[sel] - Spokes[sel + 1], 210, m, 0);
    } else {
      assert (sel + 1) % 48 == 0;
      DivModUnique(i + PrimesJumps[sel] - Spokes[0], 210, m + 1, 0);
    }
  }

  /** The next candidate is the wheel position after `selected`. */
  lemma {:induction false} StepFollowsWheel(s: Search)
    requires Valid(s)
    ensures Runnable(s)
    ensures Step(s).i >= Spokes[Step(s).selected] && (Step(s).i - Spokes[Step(s).selected]) % 210 == 0
  {
    ValidRunnable(s);
    assert Step(s).i == s.i + PrimesJumps[s.selected];
    assert Step(s).selected == (s.selected + 1) % 48;
    WheelAdvance(s.selected, s.i);
  }

  /** After a pass the list still holds primes below the candidate, in
      increasing order, and `max_prime` is still its largest entry or 11. */
  lemma {:induction false} StepKeepsList(s: Search)
    requires Valid(s)
    ensures Runnable(s)
    ensures StrictlyIncreasing(Step(s).primes) && |Step(s).primes| > 0
    ensures forall k :: 0 <= k < |Step(s).primes| ==> IsPrime(Step(s).primes[k]) && Step(s).primes[k] < Step(s).i
    ensures Step(s).maxPrime == (if Step(s).primes[|Step(s).primes| - 1] < 11 then 11 else Step(s).primes[|Step(s).primes| - 1])
    ensures Step(s).maxPrime <= Step(s).i
  {
    ValidRunnable(s);
    StepAppendsPrimes(s);
    JumpsPositive(s.selected);
  }

  /** After a pass every prime below the new candidate is in the list. */
  lemma {:induction false} StepKeepsAllPrimes(s: Search)
    requires Valid(s)
    ensures Runnable(s)
    ensures forall p :: 2 <= p < Step(s).i && IsPrime(p) ==> p in Step(s).primes
  {
    ValidRunnable(s);
    StepAppendsPrimes(s);
    var t := Step(s);
    forall p | 2 <= p < t.i && IsPrime(p)
      ensures p in t.primes
    {
      if p > s.i {
        NoPrimeSkipped(s, p);
      } else if p == s.i {
        assert t.primes[|t.primes| - 1] == p;
      } else {
        assert p in s.primes;
        var k :| 0 <= k < |s.primes| && s.primes[k] == p;
        assert t.primes[k] == p;
      }
    }
  }

  /** A pass keeps the search valid. */
  lemma {:induction false} StepPreservesValid(s: Search)
    requires Valid(s)
    ensures Runnable(s) && Valid(Step(s))
  {
    StepKeepsList(s);
    StepKeepsAllPrimes(s);
    StepFollowsWheel(s);
  }

  /** `max_prime` never decreases, never passes the candidate, and the
      candidate strictly grows. */
  lemma MaxPrimeMonotone(s: Search)
    requires Valid(s)
    ensures Runnable(s)
    ensures s.maxPrime <= Step(s).maxPrime <= Step(s).i
    ensures s.i < Step(s).i
  {
    StepPreservesValid(s);
    StepAppendsPrimes(s);
  }

  /** The state after `n` passes from the start. */
  function Run(n: nat): (s: Search)
    ensures Valid(s)
  {
    if n == 0 then
      StartValid();
      Start
    else
      var prev := Run(n - 1);
      StepPreservesValid(prev);
      Step(prev)
  }

  /** After any number of passes, the list is exactly the primes below the
      candidate, in order, and `max_prime` is the largest prime found. */
  lemma RunFindsAllPrimes(n: nat)
    ensures forall p :: 2 <= p < Run(n).i ==> (IsPrime(p) <==> p in Run(n).primes)
    ensures StrictlyIncreasing(Run(n).primes)
    ensures CoprimeTo210(Run(n).i)
    ensures IsPrime(Run(n).maxPrime)
  {
    var s := Run(n);
    CandidateOnWheel(s);
    forall p | 2 <= p < s.i && p in s.primes
      ensures IsPrime(p)
    {
      var k :| 0 <= k < |s.primes| && s.primes[k] == p;
    }
    if s.primes[|s.primes| - 1] < 11 {
      assert Divides(11, 11);
      assert IsPrime(11) by {
        forall d | 2 <= d < 11
          ensures !Divides(d, 11)
        {
          assert d == 2 || d == 3 || d == 4 || d == 5 || d == 6 || d == 7 || d == 8 || d == 9 || d == 10;
        }
      }
    }
  }
}
