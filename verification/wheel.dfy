/** The mod-210 wheel of TP1_202100722_202100718/jumps_algorithm.py: the
    48 gaps between consecutive numbers coprime to 2, 3, 5 and 7, starting
    from 11, and the positions they lead through. */
module Wheel {
  import opened Arith

  /** `primes_jumps`, lines 20-21, as four rows of twelve. */
  const PrimesJumps: seq<int> :=
    [2, 4, 2, 4, 6, 2, 6, 4, 2, 4, 6, 6] +
    [2, 6, 4, 2, 6, 4, 6, 8, 4, 2, 4, 2] +
    [4, 8, 6, 4, 6, 2, 4, 6, 2, 6, 6, 4] +
    [2, 4, 6, 2, 6, 4, 2, 4, 2, 10, 2, 10]

  /** The numbers the wheel visits in its first turn from 11: position `k`
      is reached after the first `k` jumps. */
  const Spokes: seq<int> :=
    [11, 13, 17, 19, 23, 29, 31, 37, 41, 43, 47, 53] +
    [59, 61, 67, 71, 73, 79, 83, 89, 97, 101, 103, 107] +
    [109, 113, 121, 127, 131, 137, 139, 143, 149, 151, 157, 163] +
    [167, 169, 173, 179, 181, 187, 191, 193, 197, 199, 209, 211]

  /** The sum of a sequence, added up from the left. */
  function Sum(s: seq<int>): int {
    if |s| == 0 then 0 else Sum(s[..|s| - 1]) + s[|s| - 1]
  }

  /** Where jump `k` lands: the next position, or 11 one turn later. */
  function Landing(k: int): int
    requires 0 <= k < 48
  {
    if k < 47 then Spokes[k + 1] else Spokes[0] + 210
  }

  lemma JumpLandsA(k: int)
    requires 0 <= k < 12
    ensures Spokes[k] + PrimesJumps[k] == Landing(k)
  {
  }

  lemma JumpLandsB(k: int)
    requires 12 <= k < 24
    ensures Spokes[k] + PrimesJumps[k] == Landing(k)
  {
  }

  lemma JumpLandsC(k: int)
    requires 24 <= k < 36
    ensures Spokes[k] + PrimesJumps[k] == Landing(k)
  {
  }

  lemma JumpLandsD(k: int)
    requires 36 <= k < 48
    ensures Spokes[k] + PrimesJumps[k] == Landing(k)
  {
  }

  /** Jump `k` leads from position `k` to the next one. */
  lemma JumpLands(k: int)
    requires 0 <= k < 48
    ensures Spokes[k] + PrimesJumps[k] == Landing(k)
  {
    if k < 12 {
      JumpLandsA(k);
    } else if k < 24 {
      JumpLandsB(k);
    } else if k < 36 {
      JumpLandsC(k);
    } else {
      JumpLandsD(k);
    }
  }

  /** The positions are the running sums of the jumps from 11. */
  lemma {:induction false} SpokesAreRunningSums(k: int)
    requires 0 <= k <= 47
    ensures Spokes[k] == 11 + Sum(PrimesJumps[..k])
  {
    if k > 0 {
      SpokesAreRunningSums(k - 1);
      JumpLands(k - 1);
      assert PrimesJumps[..k][..k - 1] == PrimesJumps[..k - 1];
    }
  }

  /** The table has 48 entries and one turn of the wheel covers 210 = 2*3*5*7. */
  lemma JumpsTurnOnce()
    ensures |PrimesJumps| == 48 && Sum(PrimesJumps) == 210
  {
    SpokesAreRunningSums(47);
    JumpLands(47);
    assert PrimesJumps[..48][..47] == PrimesJumps[..47];
    assert PrimesJumps[..48] == PrimesJumps;
  }

  /** Every jump moves forward. */
  lemma JumpsPositive(k: int)
    requires 0 <= k < 48
    ensures PrimesJumps[k] >= 2
  {
  }

  lemma SpokesA(k: int)
    requires 0 <= k < 12
    ensures 11 <= Spokes[k] <= 211 && CoprimeTo210(Spokes[k])
  {
  }

  lemma SpokesB(k: int)
    requires 12 <= k < 24
    ensures 11 <= Spokes[k] <= 211 && CoprimeTo210(Spokes[k])
  {
  }

  lemma SpokesC(k: int)
    requires 24 <= k < 36
    ensures 11 <= Spokes[k] <= 211 && CoprimeTo210(Spokes[k])
  {
  }

  lemma SpokesD(k: int)
    requires 36 <= k < 48
    ensures 11 <= Spokes[k] <= 211 && CoprimeTo210(Spokes[k])
  {
  }

  /** Every position is on the wheel, between 11 and 211. */
  lemma {:induction false} SpokeOnWheel(k: int)
    requires 0 <= k < 48
    ensures 11 <= Spokes[k] <= 211 && CoprimeTo210(Spokes[k])
  {
    if k < 12 {
      SpokesA(k);
    } else if k < 24 {
      SpokesB(k);
    } else if k < 36 {
      SpokesC(k);
    } else {
      SpokesD(k);
    }
  }

  lemma GapA(k: int, d: int)
    requires 0 <= k < 12 && 0 < d < PrimesJumps[k]
    ensures !CoprimeTo210(Spokes[k] + d)
  {
  }

  lemma GapB(k: int, d: int)
    requires 12 <= k < 24 && 0 < d < PrimesJumps[k]
    ensures !CoprimeTo210(Spokes[k] + d)
  {
  }

  lemma GapC(k: int, d: int)
    requires 24 <= k < 36 && 0 < d < PrimesJumps[k]
    ensures !CoprimeTo210(Spokes[k] + d)
  {
  }

  lemma GapD(k: int, d: int)
    requires 36 <= k < 48 && 0 < d < PrimesJumps[k]
    ensures !CoprimeTo210(Spokes[k] + d)
  {
  }

  /** A jump skips only numbers off the wheel, so consecutive positions are
      consecutive numbers coprime to 210. */
  lemma {:induction false} JumpSkipsOffWheel(k: int, d: int)
    requires 0 <= k < 48 && 0 < d < PrimesJumps[k]
    ensures !CoprimeTo210(Spokes[k] + d)
  {
    if k < 12 {
      GapA(k, d);
    } else if k < 24 {
      GapB(k, d);
    } else if k < 36 {
      GapC(k, d);
    } else {
      GapD(k, d);
    }
  }

  /** The same facts a whole number of turns later: from `Spokes[k] + 210 * m`
      the jump lands on the wheel and skips only numbers off it. */
  lemma {:induction false} WheelTurns(k: int, m: int)
    requires 0 <= k < 48
    ensures CoprimeTo210(Spokes[k] + 210 * m)
    ensures CoprimeTo210(Spokes[k] + 210 * m + PrimesJumps[k])
    ensures forall x :: Spokes[k] + 210 * m < x < Spokes[k] + 210 * m + PrimesJumps[k] ==> !CoprimeTo210(x)
  {
    var s, j := Spokes[k], PrimesJumps[k];
    SpokeOnWheel(k);
    JumpLands(k);
    if k < 47 {
      SpokeOnWheel(k + 1);
    } else {
      assert CoprimeTo210(221);
    }
    forall x | s < x < s + j
      ensures !CoprimeTo210(x)
    {
      JumpSkipsOffWheel(k, x - s);
    }
    ShiftedGap(s, j, m);
  }

  /** A gap between two numbers on the wheel repeats every turn. */
  lemma {:induction false} ShiftedGap(s: int, j: int, m: int)
    requires CoprimeTo210(s) && CoprimeTo210(s + j)
    requires forall x :: s < x < s + j ==> !CoprimeTo210(x)
    ensures CoprimeTo210(s + 210 * m) && CoprimeTo210(s + 210 * m + j)
    ensures forall x :: s + 210 * m < x < s + 210 * m + j ==> !CoprimeTo210(x)
  {
    WheelPeriodic(s, m);
    WheelPeriodic(s + j, m);
    forall x | s + 210 * m < x < s + 210 * m + j
      ensures !CoprimeTo210(x)
    {
      var d := x - s - 210 * m;
      assert !CoprimeTo210(s + d);
      WheelPeriodic(s + d, m);
    }
  }
}
