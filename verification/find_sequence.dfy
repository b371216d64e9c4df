/** TP1_202100722_202100718/findSequence.py: the script that derives the
    wheel's jump table. It tabulates the residues of 7, 8, ..., 216 modulo
    2, 3, 5 and 7, then walks from the first row without a zero residue to
    the next such row, cyclically, recording each distance, until it comes
    back to a row it has already filled. The printed list is the table of
    jumps_algorithm.py. */
module FindSequence {
  import opened Arith
  import opened Wheel

  // ---------------------------------------------------------------------
  // numeroIteracoes and arrayResto
  // ---------------------------------------------------------------------

  /** `reduce(lambda x, y: x * y, ps, acc)`: multiplies from the left. */
  function FoldProduct(acc: int, ps: seq<int>): int
    decreases |ps|
  {
    if |ps| == 0 then acc else FoldProduct(acc * ps[0], ps[1..])
  }

  /** The product of a list, multiplied from the right. */
  function Product(ps: seq<int>): int {
    if |ps| == 0 then 1 else ps[0] * Product(ps[1..])
  }

  /** `numeroIteracoes`, lines 4-5. */
  function Iterations(ps: seq<int>): int {
    FoldProduct(1, ps)
  }

  /** The left fold multiplies its seed by the product of the list. */
  lemma {:induction false} FoldIsProduct(acc: int, ps: seq<int>)
    ensures FoldProduct(acc, ps) == acc * Product(ps)
    decreases |ps|
  {
    if |ps| > 0 {
      FoldIsProduct(acc * ps[0], ps[1..]);
      assert acc * ps[0] * Product(ps[1..]) == acc * (ps[0] * Product(ps[1..]));
    }
  }

  /** `numeroIteracoes` is the product of its list; for the primes up to 7
      it is 210 (line 13). */
  lemma IterationsIsProduct(ps: seq<int>)
    ensures Iterations(ps) == Product(ps)
    ensures Iterations([2, 3, 5, 7]) == 210
  {
    FoldIsProduct(1, ps);
    FoldIsProduct(1, [2, 3, 5, 7]);
  }

  /** Python's `a % b`, whose result takes the sign of the divisor; a zero
      divisor raises ZeroDivisionError, which callers must rule out. */
  function PyMod(a: int, b: int): (r: int)
    requires b != 0
    ensures b > 0 ==> 0 <= r < b
    ensures b < 0 ==> b < r <= 0
    ensures (a - r) % b == 0
  {
    var q := a / b;
    assert a == b * q + a % b;
    if b > 0 || a % b == 0 then
      ZeroRemainder(b, q);
      a % b
    else
      assert a - (a % b + b) == b * (q - 1);
      ZeroRemainder(b, q - 1);
      a % b + b
  }

  /** A multiple of `b` leaves no remainder, whatever the sign of `b`. */
  lemma ZeroRemainder(b: int, q: int)
    requires b != 0
    ensures (b * q) % b == 0
  {
    if b > 0 {
      DivModUnique(b * q, b, q, 0);
    } else {
      var x := b * q;
      var q', r' := x / b, x % b;
      assert x == b * q' + r' && 0 <= r' < -b;
      assert r' == (-b) * (q' - q);
      if q' - q >= 1 {
        MulAtLeast(-b, q' - q);
      } else if q' - q <= -1 {
        MulAtLeast(-b, q - q');
      }
    }
  }

  /** No entry of the list is zero, so no `%` raises. */
  predicate NonZeroDivisors(ps: seq<int>) {
    forall k :: 0 <= k < |ps| ==> ps[k] != 0
  }

  /** `arrayResto(ps, i)`, lines 7-8: the residue of `i` modulo each entry. */
  function Residues(ps: seq<int>, i: int): (r: seq<int>)
    requires NonZeroDivisors(ps)
    ensures |r| == |ps|
    ensures forall k :: 0 <= k < |ps| && ps[k] > 0 ==> 0 <= r[k] < ps[k] && Divides(ps[k], i - r[k])
  {
    seq(|ps|, k requires 0 <= k < |ps| => PyMod(i, ps[k]))
  }

  /** A zero residue marks exactly the positive entries that divide `i`. */
  lemma ZeroResidueIffDivides(ps: seq<int>, i: int)
    requires forall k :: 0 <= k < |ps| ==> ps[k] > 0
    ensures NonZeroDivisors(ps)
    ensures 0 in Residues(ps, i) <==> exists k :: 0 <= k < |ps| && Divides(ps[k], i)
  {
    var r := Residues(ps, i);
    if 0 in r {
      var k :| 0 <= k < |r| && r[k] == 0;
      assert Divides(ps[k], i);
    }
    if exists k :: 0 <= k < |ps| && Divides(ps[k], i) {
      var k :| 0 <= k < |ps| && Divides(ps[k], i);
      assert r[k] == 0;
    }
  }

  // ---------------------------------------------------------------------
  // The residue table and the walk over it
  // ---------------------------------------------------------------------

  /** `restos`, line 15: one row per number from the last entry of the list
      onwards, as many rows as `numeroIteracoes` gives. */
  function Table(ps: seq<int>): seq<seq<int>>
    requires |ps| > 0 && NonZeroDivisors(ps)
  {
    var it := Iterations(ps);
    var first := ps[|ps| - 1];
    seq(if it < 0 then 0 else it, j => Residues(ps, first + j))
  }

  /** `0 not in restos[r]`: the row's number is divisible by none of the list. */
  predicate FreeRow(rows: seq<seq<int>>, r: int)
    requires 0 <= r < |rows|
  {
    0 !in rows[r]
  }

  /** The row `f` steps after row `r`, cyclically, is free. */
  predicate FreeAfter(rows: seq<seq<int>>, r: int, f: int)
    requires |rows| > 0
  {
    FreeRow(rows, (r + f) % |rows|)
  }

  /** A whole turn comes back to the starting row. */
  lemma FullTurn(rows: seq<seq<int>>, r: int)
    requires 0 <= r < |rows|
    ensures FreeAfter(rows, r, |rows|) == FreeRow(rows, r)
  {
    DivModUnique(r + |rows|, |rows|, 1, r);
  }

  /** The cyclic distance from row `r` to the next free row, counting from
      `d`; a free row is at distance at most `|rows|` from itself. */
  function DistFrom(rows: seq<seq<int>>, r: int, d: int): (e: int)
    requires 0 <= r < |rows| && FreeRow(rows, r) && 1 <= d <= |rows|
    ensures d <= e <= |rows| && FreeAfter(rows, r, e)
    ensures forall f :: d <= f < e ==> !FreeAfter(rows, r, f)
    decreases |rows| - d
  {
    if FreeAfter(rows, r, d) then d
    else
      FullTurn(rows, r);
      DistFrom(rows, r, d + 1)
  }

  /** The cyclic distance from a free row to the next free row. */
  function Dist(rows: seq<seq<int>>, r: int): int
    requires 0 <= r < |rows| && FreeRow(rows, r)
  {
    DistFrom(rows, r, 1)
  }

  /** The distance is the least positive step that reaches a free row. */
  lemma DistIsLeast(rows: seq<seq<int>>, r: int, d: int)
    requires 0 <= r < |rows| && FreeRow(rows, r) && 1 <= d <= |rows|
    requires FreeAfter(rows, r, d)
    requires forall f :: 1 <= f < d ==> !FreeAfter(rows, r, f)
    ensures Dist(rows, r) == d
  {
  }

  /** Lines 18-21: skip the rows that have a zero residue. */
  method FirstFreeRow(rows: seq<seq<int>>) returns (sel: int)
    requires exists j :: 0 <= j < |rows| && FreeRow(rows, j)
    ensures 0 <= sel < |rows| && FreeRow(rows, sel)
    ensures forall j :: 0 <= j < sel ==> !FreeRow(rows, j)
  {
    ghost var w :| 0 <= w < |rows| && FreeRow(rows, w);
    sel := 0;
    while 0 in rows[sel]
      invariant 0 <= sel <= w
      invariant forall j :: 0 <= j < sel ==> !FreeRow(rows, j)
      decreases w - sel
    {
      sel := sel + 1;
    }
  }

  /** Lines 24-27: step forward, cyclically, until a free row is reached. */
  method NextJump(rows: seq<seq<int>>, sel: int) returns (jump: int)
    requires 0 <= sel < |rows| && FreeRow(rows, sel)
    ensures 1 <= jump <= |rows| && FreeAfter(rows, sel, jump)
    ensures forall f :: 1 <= f < jump ==> !FreeAfter(rows, sel, f)
    ensures jump == Dist(rows, sel)
  {
    FullTurn(rows, sel);
    jump := 1;
    while 0 in rows[(sel + jump) % |rows|]
      invariant 1 <= jump <= |rows|
      invariant forall f :: 1 <= f < jump ==> !FreeAfter(rows, sel, f)
      decreases |rows| - jump
    {
      jump := jump + 1;
    }
    DistIsLeast(rows, sel, jump);
  }

  /** Within a turn, stepping forward is plain addition. */
  lemma AfterIsRow(rows: seq<seq<int>>, r: int, f: int)
    requires 0 <= r + f < |rows|
    ensures FreeAfter(rows, r, f) == FreeRow(rows, r + f)
  {
    ModShift(r + f, |rows|, 0);
  }

  /** Stepping past the last row wraps round to the first. */
  lemma AfterWraps(rows: seq<seq<int>>, r: int, f: int)
    requires |rows| <= r + f < 2 * |rows|
    ensures FreeAfter(rows, r, f) == FreeRow(rows, r + f - |rows|)
  {
    DivModUnique(r + f, |rows|, 1, r + f - |rows|);
  }

  /** What the walk records at row `r`: the distance to the next free row
      at a free row, zero elsewhere. */
  function Recorded(rows: seq<seq<int>>, r: int): int
    requires 0 <= r < |rows|
  {
    if FreeRow(rows, r) then Dist(rows, r) else 0
  }

  /** The walk's record so far: complete below `top`, zero from `top` on. */
  ghost predicate FilledUpTo(rows: seq<seq<int>>, top: int, jumps: seq<int>)
    requires 0 <= top <= |rows|
  {
    && |jumps| == |rows|
    && (forall r :: 0 <= r < top ==> jumps[r] == Recorded(rows, r))
    && (forall r :: top <= r < |rows| ==> jumps[r] == 0)
  }

  /** Recording the distance at `sel` and jumping within the turn extends
      the record to the row jumped to. */
  lemma FillWithinTurn(rows: seq<seq<int>>, sel: int, jump: int, jumps: seq<int>)
    requires 0 <= sel && 1 <= jump && sel + jump < |rows| && FreeRow(rows, sel)
    requires FilledUpTo(rows, sel, jumps)
    requires jump == Dist(rows, sel) && forall f :: 1 <= f < jump ==> !FreeAfter(rows, sel, f)
    ensures FilledUpTo(rows, sel + jump, jumps[sel := jump])
  {
    var next := jumps[sel := jump];
    forall r | sel < r < sel + jump
      ensures next[r] == Recorded(rows, r)
    {
      AfterIsRow(rows, sel, r - sel);
    }
  }

  /** From the last free row, the next free row round the turn is the
      first one. */
  lemma WrapLandsOnStart(rows: seq<seq<int>>, start: int, sel: int, jump: int)
    requires 0 <= start <= sel < |rows| <= sel + jump && jump <= |rows|
    requires FreeRow(rows, start) && forall j :: 0 <= j < start ==> !FreeRow(rows, j)
    requires FreeAfter(rows, sel, jump)
    requires forall f :: 1 <= f < jump ==> !FreeAfter(rows, sel, f)
    ensures (sel + jump) % |rows| == start
  {
    var n := |rows|;
    AfterWraps(rows, sel, jump);
    DivModUnique(sel + jump, n, 1, sel + jump - n);
    if sel + jump - n != start {
      var f := start + n - sel;
      assert 1 <= f < jump;
      AfterWraps(rows, sel, f);
    }
  }

  /** Recording the distance at `sel` and jumping past the last row
      completes the record. */
  lemma FillWrapsRound(rows: seq<seq<int>>, sel: int, jump: int, jumps: seq<int>)
    requires 0 <= sel < |rows| <= sel + jump && FreeRow(rows, sel)
    requires FilledUpTo(rows, sel, jumps)
    requires jump == Dist(rows, sel)
    requires forall f :: 1 <= f < jump ==> !FreeAfter(rows, sel, f)
    ensures FilledUpTo(rows, |rows|, jumps[sel := jump])
  {
    var next := jumps[sel := jump];
    forall r | sel < r < |rows|
      ensures next[r] == Recorded(rows, r)
    {
      AfterIsRow(rows, sel, r - sel);
    }
  }

  /** Lines 16 and 23-30: walk from the first free row, recording at each
      free row the distance to the next one, until a filled row comes up
      again. Every free row is visited once, so the walk records the
      distance at exactly the free rows and leaves the others zero. */
  method FillJumps(rows: seq<seq<int>>, start: int) returns (jumps: seq<int>)
    requires 0 <= start < |rows| && FreeRow(rows, start)
    requires forall j :: 0 <= j < start ==> !FreeRow(rows, j)
    ensures |jumps| == |rows|
    ensures forall r :: 0 <= r < |rows| ==> jumps[r] == if FreeRow(rows, r) then Dist(rows, r) else 0
  {
    var n := |rows|;
    jumps := seq(n, _ => 0);
    var sel := start;
    ghost var top := start;
    while jumps[sel] == 0
      invariant 0 <= sel < n && FreeRow(rows, sel)
      invariant start <= top <= n
      invariant (sel == top && top < n) || (top == n && sel == start)
      invariant FilledUpTo(rows, top, jumps)
      decreases n - top
    {
      var jump := NextJump(rows, sel);
      if sel + jump < n {
        FillWithinTurn(rows, sel, jump, jumps);
        DivModUnique(sel + jump, n, 0, sel + jump);
        top := sel + jump;
      } else {
        FillWrapsRound(rows, sel, jump, jumps);
        WrapLandsOnStart(rows, start, sel, jump);
        top := n;
      }
      jumps := jumps[sel := jump];
      sel := (sel + jump) % n;
    }
  }

  /** Line 35: the entries that are not zero, in order. */
  function NonZero(s: seq<int>): seq<int> {
    if |s| == 0 then []
    else (if s[0] != 0 then [s[0]] else []) + NonZero(s[1..])
  }

  /** The filter keeps exactly the non-zero entries and never lengthens. */
  lemma {:induction false} NonZeroKeepsNonZeros(s: seq<int>)
    ensures |NonZero(s)| <= |s|
    ensures forall x :: x in NonZero(s) <==> x in s && x != 0
  {
    if |s| > 0 {
      NonZeroKeepsNonZeros(s[1..]);
      assert forall x :: x in s <==> x == s[0] || x in s[1..];
    }
  }

  lemma {:induction false} NonZeroAppend(a: seq<int>, b: seq<int>)
    ensures NonZero(a + b) == NonZero(a) + NonZero(b)
  {
    if |a| == 0 {
      assert a + b == b;
    } else {
      var h := if a[0] != 0 then [a[0]] else [];
      assert (a + b)[0] == a[0];
      assert (a + b)[1..] == a[1..] + b;
      assert NonZero(a + b) == h + NonZero(a[1..] + b);
      NonZeroAppend(a[1..], b);
      assert h + (NonZero(a[1..]) + NonZero(b)) == (h + NonZero(a[1..])) + NonZero(b);
    }
  }

  lemma {:induction false} NonZeroOfZeros(s: seq<int>)
    requires forall k :: 0 <= k < |s| ==> s[k] == 0
    ensures NonZero(s) == []
  {
    if |s| > 0 {
      NonZeroOfZeros(s[1..]);
    }
  }

  // ---------------------------------------------------------------------
  // The table for 2, 3, 5, 7
  // ---------------------------------------------------------------------

  /** `arrPrimos`, line 11. */
  const WheelPrimes: seq<int> := [2, 3, 5, 7]

  /** The table has 210 rows, row `j` belonging to the number 7 + j, and a
      row is free exactly when its number is on the mod-210 wheel. */
  lemma WheelTable()
    ensures NonZeroDivisors(WheelPrimes)
    ensures |Table(WheelPrimes)| == 210
    ensures forall j :: 0 <= j < 210 ==> Table(WheelPrimes)[j] == Residues(WheelPrimes, 7 + j)
    ensures forall j :: 0 <= j < 210 ==> (FreeRow(Table(WheelPrimes), j) <==> CoprimeTo210(7 + j))
  {
    IterationsIsProduct(WheelPrimes);
    forall j | 0 <= j < 210
      ensures FreeRow(Table(WheelPrimes), j) <==> CoprimeTo210(7 + j)
    {
      ZeroResidueIffDivides(WheelPrimes, 7 + j);
      assert Divides(WheelPrimes[0], 7 + j) <==> (7 + j) % 2 == 0;
      assert Divides(WheelPrimes[3], 7 + j) <==> (7 + j) % 7 == 0;
    }
  }

  /** Rows that say, row by row, whether 7 + row is on the wheel: what
      `WheelTable` shows of the residue table of 2, 3, 5, 7. */
  ghost predicate WheelRows(rows: seq<seq<int>>) {
    |rows| == 210 && forall j :: 0 <= j < 210 ==> (FreeRow(rows, j) <==> CoprimeTo210(7 + j))
  }

  /** Stepping `f` rows from row `r` reaches a free row exactly when
      7 + r + f is on the wheel, wrapping round or not. */
  lemma {:induction false} WheelAfter(rows: seq<seq<int>>, r: int, f: int)
    requires WheelRows(rows) && 0 <= r < 210 && f >= 0
    ensures FreeAfter(rows, r, f) <==> CoprimeTo210(7 + r + f)
  {
    var x := (r + f) % 210;
    var q := (r + f) / 210;
    assert 7 + r + f == (7 + x) + 210 * q;
    WheelPeriodic(7 + x, q);
  }

  /** Positions `k` and `k + 1` are one jump apart. */
  predicate Consecutive(pos: seq<int>, js: seq<int>, k: int)
    requires 0 <= k < |pos| - 1 && |js| == |pos|
  {
    pos[k] + js[k] == pos[k + 1]
  }

  /** 48 positions from 11, each jump leading to the next and the last one
      on to 221 = 11 + 210. */
  ghost predicate Chain(pos: seq<int>, js: seq<int>) {
    && |pos| == 48 && |js| == 48
    && pos[0] == 11 && pos[47] + js[47] == 221
    && (forall k :: 0 <= k < 48 ==> 11 <= pos[k] <= 211 && js[k] >= 1)
    && (forall k :: 0 <= k < 47 ==> Consecutive(pos, js, k))
  }

  /** `pos` and `js` describe one turn of the wheel from 11: the positions
      are on the wheel and each jump passes numbers off the wheel only. */
  ghost predicate OneTurn(pos: seq<int>, js: seq<int>) {
    && Chain(pos, js)
    && (forall k :: 0 <= k < 48 ==> CoprimeTo210(pos[k]))
    && (forall k, x :: 0 <= k < 48 && pos[k] < x < pos[k] + js[k] ==> !CoprimeTo210(x))
  }

  /** The positions and jumps of the mod-210 wheel make one turn. */
  lemma WheelIsOneTurn()
    ensures OneTurn(Spokes, PrimesJumps)
  {
    forall k | 0 <= k < 48
      ensures 11 <= Spokes[k] <= 211 && CoprimeTo210(Spokes[k]) && PrimesJumps[k] >= 1
    {
      SpokeOnWheel(k);
      JumpsPositive(k);
    }
    forall k | 0 <= k < 47
      ensures Consecutive(Spokes, PrimesJumps, k)
    {
      JumpLands(k);
    }
    forall k, x | 0 <= k < 48 && Spokes[k] < x < Spokes[k] + PrimesJumps[k]
      ensures !CoprimeTo210(x)
    {
      WheelTurns(k, 0);
    }
    JumpLands(47);
  }

  /** The row of position `k` is free and its distance is the `k`-th jump. */
  lemma PositionRow(rows: seq<seq<int>>, pos: seq<int>, js: seq<int>, k: int)
    requires WheelRows(rows) && OneTurn(pos, js) && 0 <= k < 48
    ensures 0 <= pos[k] - 7 < 210
    ensures FreeRow(rows, pos[k] - 7)
    ensures Dist(rows, pos[k] - 7) == js[k]
  {
    var r := pos[k] - 7;
    if k < 47 {
      assert Consecutive(pos, js, k);
    } else {
      assert CoprimeTo210(221);
    }
    WheelAfter(rows, r, js[k]);
    forall f | 1 <= f < js[k]
      ensures !FreeAfter(rows, r, f)
    {
      WheelAfter(rows, r, f);
    }
    DistIsLeast(rows, r, js[k]);
  }

  /** What the walk leaves for wheel rows. */
  ghost predicate WheelRecord(rows: seq<seq<int>>, jumps: seq<int>) {
    && WheelRows(rows)
    && |jumps| == 210
    && forall r :: 0 <= r < 210 ==> jumps[r] == if FreeRow(rows, r) then Dist(rows, r) else 0
  }

  /** A 210-row record holding jump `k` at the row of position `k` and zero
      in the rows before 11 and in the rows a jump passes over. */
  ghost predicate Sparse(s: seq<int>, pos: seq<int>, js: seq<int>)
    requires Chain(pos, js)
  {
    && |s| == 210
    && (forall r :: 0 <= r < 4 ==> s[r] == 0)
    && (forall k :: 0 <= k < 48 ==> s[pos[k] - 7] == js[k])
    && (forall k, r :: 0 <= k < 48 && pos[k] - 7 < r < pos[k] - 7 + js[k] && r < 210 ==> s[r] == 0)
  }

  /** 7, 8, 9 and 10 are off the wheel. */
  lemma BelowElevenOffWheel()
    ensures forall x :: 7 <= x < 11 ==> !CoprimeTo210(x)
  {
    forall x | 7 <= x < 11
      ensures !CoprimeTo210(x)
    {
      assert x == 7 || x == 8 || x == 9 || x == 10;
    }
  }

  /** The walk's record over wheel rows has that shape. */
  lemma RecordIsSparse(rows: seq<seq<int>>, jumps: seq<int>, pos: seq<int>, js: seq<int>)
    requires WheelRecord(rows, jumps) && OneTurn(pos, js)
    ensures Sparse(jumps, pos, js)
  {
    BelowElevenOffWheel();
    forall k | 0 <= k < 48
      ensures jumps[pos[k] - 7] == js[k]
    {
      PositionRow(rows, pos, js, k);
    }
    forall k, r | 0 <= k < 48 && pos[k] - 7 < r < pos[k] - 7 + js[k] && r < 210
      ensures jumps[r] == 0
    {
      assert !CoprimeTo210(7 + r);
    }
  }

  /** A stretch of zeros followed by a non-zero entry adds just that entry
      to the filter. */
  lemma SkipZerosThenKeep(s: seq<int>, p: int, r: int)
    requires 0 <= p <= r < |s| && NonZero(s[p..r]) == [] && s[r] != 0
    ensures NonZero(s[..r + 1]) == NonZero(s[..p]) + [s[r]]
  {
    assert s[..r + 1] == s[..p] + s[p..r] + [s[r]];
    NonZeroAppend(s[..p] + s[p..r], [s[r]]);
    NonZeroAppend(s[..p], s[p..r]);
    assert [s[r]][1..] == [];
  }

  lemma PrefixStep(s: seq<int>, k: int)
    requires 0 <= k < |s|
    ensures s[..k + 1] == s[..k] + [s[k]]
  {
  }

  /** The rows jump `k` passes over contribute nothing to the filter. */
  lemma PassedRowsVanish(s: seq<int>, pos: seq<int>, js: seq<int>, k: int, lo: int, hi: int)
    requires Chain(pos, js) && Sparse(s, pos, js) && 0 <= k < 48
    requires pos[k] - 7 < lo <= hi <= 210 && hi <= pos[k] - 7 + js[k]
    ensures NonZero(s[lo..hi]) == []
  {
    forall i | 0 <= i < hi - lo
      ensures s[lo..hi][i] == 0
    {
      assert s[lo + i] == 0;
    }
    NonZeroOfZeros(s[lo..hi]);
  }

  /** Rows 0 to 3 (the numbers 7 to 10) are zero; row 4 holds the first
      jump. */
  lemma RecordFirst(s: seq<int>, pos: seq<int>, js: seq<int>)
    requires Chain(pos, js) && Sparse(s, pos, js)
    ensures NonZero(s[..pos[0] - 7 + 1]) == js[..1]
  {
    forall i | 0 <= i < 4
      ensures s[0..4][i] == 0
    {
      assert s[i] == 0;
    }
    NonZeroOfZeros(s[0..4]);
    assert s[..0] == [];
    SkipZerosThenKeep(s, 0, 4);
    assert js[..1] == [js[0]];
  }

  /** Passing from position `k - 1` to position `k` adds one non-zero
      entry, the `k`-th jump. */
  lemma RecordNext(s: seq<int>, pos: seq<int>, js: seq<int>, k: int)
    requires Chain(pos, js) && Sparse(s, pos, js) && 0 < k < 48
    requires NonZero(s[..pos[k - 1] - 7 + 1]) == js[..k]
    ensures NonZero(s[..pos[k] - 7 + 1]) == js[..k + 1]
  {
    assert Consecutive(pos, js, k - 1);
    PassedRowsVanish(s, pos, js, k - 1, pos[k - 1] - 7 + 1, pos[k] - 7);
    SkipZerosThenKeep(s, pos[k - 1] - 7 + 1, pos[k] - 7);
    PrefixStep(js, k);
  }

  /** Up to and including the row of position `k`, the non-zero entries
      are the first `k + 1` jumps. */
  lemma {:induction false} RecordPrefix(s: seq<int>, pos: seq<int>, js: seq<int>, k: int)
    requires Chain(pos, js) && Sparse(s, pos, js) && 0 <= k < 48
    ensures NonZero(s[..pos[k] - 7 + 1]) == js[..k + 1]
  {
    if k == 0 {
      RecordFirst(s, pos, js);
    } else {
      RecordPrefix(s, pos, js, k - 1);
      RecordNext(s, pos, js, k);
    }
  }

  /** After the last position only passed-over rows remain, so the filter
      yields exactly the jumps. */
  lemma RecordFilters(s: seq<int>, pos: seq<int>, js: seq<int>)
    requires Chain(pos, js) && Sparse(s, pos, js)
    ensures NonZero(s) == js
  {
    RecordPrefix(s, pos, js, 47);
    var p := pos[47] - 7 + 1;
    assert s == s[..p] + s[p..210];
    NonZeroAppend(s[..p], s[p..210]);
    PassedRowsVanish(s, pos, js, 47, p, 210);
    assert js[..48] == js;
  }

  /** The filter of line 35 turns the walk's record into `primes_jumps`. */
  lemma RecordFiltersToJumps(rows: seq<seq<int>>, jumps: seq<int>)
    requires WheelRecord(rows, jumps)
    ensures NonZero(jumps) == PrimesJumps
  {
    WheelIsOneTurn();
    RecordIsSparse(rows, jumps, Spokes, PrimesJumps);
    RecordFilters(jumps, Spokes, PrimesJumps);
  }

  /** The whole script, lines 11-35: the walk starts at row 4 (the number
      11) and prints the 48 jumps of `primes_jumps`, which add up to one
      turn of 210. */
  method FindJumpTable() returns (start: int, jumps: seq<int>)
    ensures start == 4
    ensures jumps == PrimesJumps
    ensures |jumps| == 48 && Sum(jumps) == 210
  {
    TableIsWheel();
    var rows := Table(WheelPrimes);
    FirstWheelRow(rows);
    start := FirstFreeRow(rows);
    var filled := FillJumps(rows, start);
    jumps := NonZero(filled);
    RecordFiltersToJumps(rows, filled);
    JumpsTurnOnce();
  }

  /** The residue table of 2, 3, 5, 7 marks the wheel. */
  lemma TableIsWheel()
    ensures NonZeroDivisors(WheelPrimes) && WheelRows(Table(WheelPrimes))
  {
    WheelTable();
  }

  /** Row 4, the number 11, is the first free row of wheel rows. */
  lemma FirstWheelRow(rows: seq<seq<int>>)
    requires WheelRows(rows)
    ensures FreeRow(rows, 4)
    ensures forall j :: 0 <= j < 4 ==> !FreeRow(rows, j)
  {
    BelowElevenOffWheel();
  }
}
