/** The search for better node weights: the neighbours of a point, the step along the measured slopes,
    and the normalisation that turns the result into a point again. */
module WeightSearch {
  import opened Rounding
  import opened Dealing

  const W_STEP: real := 7.0
  const O_STEP: real := 1.0

  function Total(s: seq<real>): real {
    RealSum(s, |s|)
  }

  ghost predicate NonNegative(s: seq<real>) {
    forall i :: 0 <= i < |s| ==> 0.0 <= s[i]
  }

  // ----- the minimum, kept in an int -----

  /** The entry is strictly below its truncation, which only happens to negative fractions. */
  predicate Below(s: seq<real>, m: int, i: nat)
    requires i < |s|
  {
    s[i] < m as real
  }

  function LeastTrunc(s: seq<real>, n: nat): (m: int)
    requires 0 < n <= |s|
    ensures forall i :: 0 <= i < n ==> m <= Trunc(s[i])
    ensures exists i :: 0 <= i < n && m == Trunc(s[i])
  {
    if n == 1 then Trunc(s[0])
    else
      var m := LeastTrunc(s, n - 1);
      if Trunc(s[n - 1]) < m then Trunc(s[n - 1]) else m
  }

  /** Among the first n entries: the last one strictly below the least truncated value, or, if there is
      none, the first one that truncates to it. */
  ghost predicate Picks(s: seq<real>, n: nat, index: nat) {
    && index < n <= |s|
    && Trunc(s[index]) == LeastTrunc(s, n)
    && (if Below(s, LeastTrunc(s, n), index)
        then forall i :: index < i < n ==> !Below(s, LeastTrunc(s, n), i)
        else forall i :: 0 <= i < n ==> !Below(s, LeastTrunc(s, n), i) && (i < index ==> LeastTrunc(s, n) < Trunc(s[i])))
  }

  lemma {:induction false} PickUnique(s: seq<real>, n: nat, i: nat, j: nat)
    requires Picks(s, n, i) && Picks(s, n, j)
    ensures i == j
  {
  }

  /** An entry below an integer truncates to no more than it, and to less unless both are negative. */
  lemma {:induction false} BelowTruncates(x: real, m: int)
    ensures x < m as real ==> Trunc(x) <= m
    ensures m as real <= x ==> m <= Trunc(x)
    ensures x < m as real && Trunc(x) == m ==> x < 0.0
    ensures x < 0.0 && Trunc(x) == m ==> x <= m as real
  {
    assert (Trunc(x) - m) as real < 1.0 || x >= m as real;
    assert (m - Trunc(x)) as real < 1.0 || x < m as real;
  }

  lemma {:induction false} PickStep(s: seq<real>, n: nat, index: nat)
    requires n < |s| && Picks(s, n, index)
    ensures Picks(s, n + 1, if s[n] < Trunc(s[index]) as real then n else index)
  {
    var m := Trunc(s[index]);
    BelowTruncates(s[n], m);
    if s[n] < m as real && Trunc(s[n]) < m {
      forall i | 0 <= i < n ensures !Below(s, Trunc(s[n]), i) {
        BelowTruncates(s[i], Trunc(s[n]));
      }
    }
  }

  method FindMinimum(a: array<real>) returns (index: nat)
    requires a.Length > 0
    ensures Picks(a[..], a.Length, index)
  {
    var min := Trunc(a[0]);
    index := 0;
    var c := 1;
    while c < a.Length
      invariant 1 <= c <= a.Length && index < c && min == Trunc(a[index])
      invariant Picks(a[..], c, index)
    {
      PickStep(a[..], c, index);
      if a[c] < min as real {
        index := c;
        min := Trunc(a[c]);
      }
      c := c + 1;
    }
  }

  /** The pick is negative exactly when some entry is. */
  lemma {:induction false} PickNegative(s: seq<real>, index: nat)
    requires Picks(s, |s|, index)
    ensures s[index] < 0.0 <==> exists i :: 0 <= i < |s| && s[i] < 0.0
  {
    if i :| 0 <= i < |s| && s[i] < 0.0 {
      var m := LeastTrunc(s, |s|);
      BelowTruncates(s[index], m);
      BelowTruncates(s[i], m);
      assert m <= Trunc(s[i]) <= 0;
    }
  }

  // ----- the shift -----

  /** Eliminating the negatives by the picked entry. */
  function Shift(x: real, minimum: real): real {
    if minimum < 0.0 then x + minimum * -1.0 else x
  }

  function Shifted(s: seq<real>, minimum: real, n: nat): (r: seq<real>)
    requires n <= |s|
    ensures |r| == n && forall i :: 0 <= i < n ==> r[i] == Shift(s[i], minimum)
  {
    if n == 0 then [] else Shifted(s, minimum, n - 1) + [Shift(s[n - 1], minimum)]
  }

  /** No weight is -1 or less after the shift, and the picked one is not negative. */
  lemma {:induction false} ShiftAboveMinusOne(s: seq<real>, index: nat, i: nat)
    requires Picks(s, |s|, index) && i < |s|
    ensures -1.0 < Shift(s[i], s[index]) && 0.0 <= Shift(s[index], s[index])
  {
    PickNegative(s, index);
    BelowTruncates(s[index], LeastTrunc(s, |s|));
    assert LeastTrunc(s, |s|) <= Trunc(s[i]);
  }

  /** The shift keeps all differences and brings a negative pick to zero; without one it changes nothing. */
  lemma {:induction false} ShiftKeepsDifferences(s: seq<real>, index: nat)
    requires index < |s|
    ensures var r := Shifted(s, s[index], |s|);
            if 0.0 <= s[index] then r == s
            else r[index] == 0.0 && forall i, j :: 0 <= i < |s| && 0 <= j < |s| ==> r[i] - r[j] == s[i] - s[j]
  {
  }

  /** A smaller entry stands before the last one that is below the least truncated value. */
  ghost predicate LeavesNegative(s: seq<real>)
    requires s != []
  {
    exists i, j :: 0 <= i < j < |s| && s[i] < s[j] && Below(s, LeastTrunc(s, |s|), j)
                && forall k :: j < k < |s| ==> !Below(s, LeastTrunc(s, |s|), k)
  }

  /** Some weight stays negative exactly when the last entry below the least truncated value is not the
      smallest of all. */
  lemma {:induction false} LeftoverIff(s: seq<real>, index: nat)
    requires Picks(s, |s|, index)
    ensures NonNegative(Shifted(s, s[index], |s|)) <==> !LeavesNegative(s)
  {
    var m := LeastTrunc(s, |s|);
    PickNegative(s, index);
    if !NonNegative(Shifted(s, s[index], |s|)) {
      var i :| 0 <= i < |s| && Shift(s[i], s[index]) < 0.0;
      BelowTruncates(s[index], m);
      assert s[i] < s[index];
      assert Below(s, m, i);
      assert Below(s, m, index);
      assert i < index;
    }
    if LeavesNegative(s) {
      var i, j :| 0 <= i < j < |s| && s[i] < s[j] && Below(s, m, j) && forall k :: j < k < |s| ==> !Below(s, m, k);
      assert Below(s, m, index);
      assert index == j;
      BelowTruncates(s[j], m);
      assert Shifted(s, s[index], |s|)[i] < 0.0;
    }
  }

  // ----- normalising -----

  function Percent(x: real, sum: real): real
    requires sum != 0.0
  {
    x / sum * 100.0
  }

  function Scaled(s: seq<real>, sum: real, n: nat): (r: seq<real>)
    requires n <= |s| && sum != 0.0
    ensures |r| == n && forall i :: 0 <= i < n ==> r[i] == Percent(s[i], sum)
  {
    if n == 0 then [] else Scaled(s, sum, n - 1) + [Percent(s[n - 1], sum)]
  }

  function Normalised(s: seq<real>): (r: seq<real>)
    requires Total(s) != 0.0
    ensures |r| == |s|
  {
    if Total(s) != 100.0 then Scaled(s, Total(s), |s|) else s
  }

  lemma {:induction false} PercentAdds(x: real, y: real, sum: real)
    requires sum != 0.0
    ensures Percent(x, sum) + Percent(y, sum) == Percent(x + y, sum)
    ensures Percent(0.0, sum) == 0.0 && Percent(sum, sum) == 100.0
    ensures 0.0 <= x && 0.0 < sum ==> 0.0 <= Percent(x, sum)
  {
    assert x / sum + y / sum == (x + y) / sum;
  }

  lemma {:induction false} ScaledSum(s: seq<real>, sum: real, n: nat)
    requires n <= |s| && sum != 0.0
    ensures RealSum(Scaled(s, sum, |s|), n) == Percent(RealSum(s, n), sum)
  {
    if n == 0 {
      PercentAdds(0.0, 0.0, sum);
    } else {
      ScaledSum(s, sum, n - 1);
      PercentAdds(RealSum(s, n - 1), s[n - 1], sum);
    }
  }

  lemma {:induction false} PercentIs(x: real, sum: real)
    requires sum != 0.0
    ensures Percent(x, sum) * sum == 100.0 * x
  {
    var q := x / sum;
    assert q * sum == x;
    assert q * 100.0 * sum == 100.0 * (q * sum);
  }

  /** Whatever the signs, the normalised weights total 100 and are in proportion to what they were. */
  lemma {:induction false} NormalisedTotals(s: seq<real>)
    requires Total(s) != 0.0
    ensures Total(Normalised(s)) == 100.0
    ensures forall i :: 0 <= i < |s| ==> Normalised(s)[i] * Total(s) == 100.0 * s[i]
  {
    forall i | 0 <= i < |s| ensures Normalised(s)[i] * Total(s) == 100.0 * s[i] {
      PercentIs(s[i], Total(s));
    }
    ScaledSum(s, Total(s), |s|);
    PercentAdds(0.0, 0.0, Total(s));
  }

  lemma {:induction false} PercentSign(x: real, sum: real)
    requires sum != 0.0
    ensures Percent(x, sum) < 0.0 <==> (x < 0.0 < sum || sum < 0.0 < x)
  {
    var q := x / sum;
    assert q * sum == x;
    assert q < 0.0 && sum > 0.0 ==> q * sum < 0.0;
    assert q < 0.0 && sum < 0.0 ==> q * sum > 0.0;
    assert q >= 0.0 && sum > 0.0 ==> q * sum >= 0.0;
    assert q >= 0.0 && sum < 0.0 ==> q * sum <= 0.0;
  }

  lemma {:induction false} SumNonNegative(s: seq<real>, n: nat, j: nat)
    requires j < n <= |s| && NonNegative(s)
    ensures s[j] <= RealSum(s, n)
  {
    SumAtLeastZero(s, n - 1);
    if j < n - 1 { SumNonNegative(s, n - 1, j); }
  }

  lemma {:induction false} SumAtLeastZero(s: seq<real>, n: nat)
    requires n <= |s| && NonNegative(s)
    ensures 0.0 <= RealSum(s, n)
  {
    if n > 0 { SumAtLeastZero(s, n - 1); }
  }

  lemma {:induction false} SumAtMostZero(s: seq<real>, n: nat)
    requires n <= |s| && forall i :: 0 <= i < |s| ==> s[i] <= 0.0
    ensures RealSum(s, n) <= 0.0
  {
    if n > 0 { SumAtMostZero(s, n - 1); }
  }

  lemma {:induction false} SumNonPositive(s: seq<real>, n: nat, j: nat)
    requires j < n <= |s| && forall i :: 0 <= i < |s| ==> s[i] <= 0.0
    ensures RealSum(s, n) <= s[j]
  {
    SumAtMostZero(s, n - 1);
    if j < n - 1 { SumNonPositive(s, n - 1, j); }
  }

  /** Normalising gives non-negative weights exactly when no two weights differ in sign: all-negative ones
      are divided by a negative sum. */
  lemma {:induction false} NormalisedSign(s: seq<real>)
    requires Total(s) != 0.0
    ensures NonNegative(Normalised(s)) <==> NonNegative(s) || forall i :: 0 <= i < |s| ==> s[i] <= 0.0
  {
    var sum := Total(s);
    forall i | 0 <= i < |s|
      ensures Normalised(s)[i] < 0.0 <==> (s[i] < 0.0 < sum || sum < 0.0 < s[i])
    {
      PercentSign(s[i], sum);
    }
    if NonNegative(s) { SumAtLeastZero(s, |s|); }
    if forall i :: 0 <= i < |s| ==> s[i] <= 0.0 { SumAtMostZero(s, |s|); }
  }

  /** False where the source divides by zero. */
  method Normalise(a: array<real>) returns (ok: bool)
    modifies a
    ensures ok == (Total(old(a[..])) != 0.0)
    ensures a[..] == if ok then Normalised(old(a[..])) else old(a[..])
  {
    var sum := 0.0;
    var i := 0;
    while i < a.Length
      invariant 0 <= i <= a.Length && sum == RealSum(a[..], i)
    {
      sum := sum + a[i];
      i := i + 1;
    }
    ok := sum != 0.0;
    if sum != 100.0 && ok {
      i := 0;
      while i < a.Length
        invariant 0 <= i <= a.Length
        invariant forall k :: 0 <= k < i ==> a[k] == Percent(old(a[k]), sum)
        invariant forall k :: i <= k < a.Length ==> a[k] == old(a[k])
      {
        a[i] := a[i] / sum * 100.0;
        i := i + 1;
      }
    }
  }

  // ----- neighbours -----

  function Step(x: real, main: bool): real {
    if main then
      if x + W_STEP > 100.0 then 100.0 else x + W_STEP
    else
      if x - O_STEP < 0.0 then 0.0 else x - O_STEP
  }

  function Stepped(s: seq<real>, j: nat, n: nat): (r: seq<real>)
    requires n <= |s|
    ensures |r| == n && forall i :: 0 <= i < n ==> r[i] == Step(s[i], i == j)
  {
    if n == 0 then [] else Stepped(s, j, n - 1) + [Step(s[n - 1], n - 1 == j)]
  }

  /** A neighbour before it is normalised: seven more along its own weight, up to 100, and one less along the
      others, down to zero. */
  lemma {:induction false} NeighbourIs(s: seq<real>, j: nat, i: nat)
    requires j < |s| && i < |s|
    ensures var r := Stepped(s, j, |s|)[i];
            if i == j then r == (if s[i] <= 93.0 then s[i] + 7.0 else 100.0)
            else r == (if 1.0 <= s[i] then s[i] - 1.0 else 0.0)
  {
  }

  /** Every neighbour of a non-negative point has a positive sum, so it can be normalised, and is itself
      non-negative and totals 100. */
  lemma {:induction false} NeighbourIsAPoint(s: seq<real>, j: nat)
    requires NonNegative(s) && j < |s|
    ensures 0.0 < Total(Stepped(s, j, |s|))
    ensures NonNegative(Normalised(Stepped(s, j, |s|))) && Total(Normalised(Stepped(s, j, |s|))) == 100.0
  {
    var r := Stepped(s, j, |s|);
    assert NonNegative(r);
    SumNonNegative(r, |r|, j);
    NormalisedTotals(r);
    NormalisedSign(r);
  }

  method Neighbour(weights: array<real>, j: nat, neighbour: array<real>) returns (ok: bool)
    requires weights != neighbour && neighbour.Length == weights.Length
    modifies neighbour
    ensures var stepped := Stepped(weights[..], j, weights.Length);
            ok == (Total(stepped) != 0.0) && neighbour[..] == if ok then Normalised(stepped) else stepped
  {
    var i := 0;
    while i < weights.Length
      invariant 0 <= i <= weights.Length
      invariant forall k :: 0 <= k < i ==> neighbour[k] == Step(weights[k], k == j)
    {
      if i == j {
        neighbour[i] := weights[i] + W_STEP;
        if neighbour[i] > 100.0 {
          neighbour[i] := 100.0;
        }
      } else {
        neighbour[i] := weights[i] - O_STEP;
        if neighbour[i] < 0.0 {
          neighbour[i] := 0.0;
        }
      }
      i := i + 1;
    }
    assert neighbour[..] == Stepped(weights[..], j, weights.Length);
    ok := Normalise(neighbour);
  }

  // ----- one iteration -----

  /** The measured slope along one weight. */
  function Slope(s: seq<real>, j: nat, t0: real, time: real): real
    requires j < |s| && Total(Stepped(s, j, |s|)) != 0.0
  {
    var there := Normalised(Stepped(s, j, |s|))[j];
    if s[j] - there == 0.0 then 1.0 else (t0 - time) / (s[j] - there)
  }

  ghost predicate Searchable(s: seq<real>) {
    forall j :: 0 <= j < |s| ==> Total(Stepped(s, j, |s|)) != 0.0
  }

  function Moved(s: seq<real>, t0: real, times: seq<real>, n: nat): (r: seq<real>)
    requires n <= |s| == |times| && Searchable(s)
    ensures |r| == n && forall j :: 0 <= j < n ==> r[j] == s[j] - W_STEP * Slope(s, j, t0, times[j])
  {
    if n == 0 then []
    else Moved(s, t0, times, n - 1) + [s[n - 1] - W_STEP * Slope(s, n - 1, t0, times[n - 1])]
  }

  /** From x, against a slope between x and there: by seven times the rise over the difference, or by seven. */
  ghost predicate MovedAgainst(x: real, there: real, rise: real, moved: real) {
    && (there == x ==> moved == x - 7.0)
    && (there != x ==> (x - moved) * (x - there) == 7.0 * rise)
    && (x < there ==> (moved < x <==> rise < 0.0) && (x < moved <==> 0.0 < rise))
  }

  lemma {:induction false} AgainstSlope(x: real, there: real, rise: real, slope: real)
    requires slope == if x - there == 0.0 then 1.0 else rise / (x - there)
    ensures MovedAgainst(x, there, rise, x - 7.0 * slope)
  {
    var d := x - there;
    if d != 0.0 {
      assert slope * d == rise;
      assert 7.0 * slope * d == 7.0 * (slope * d);
      assert d < 0.0 && 0.0 < slope ==> slope * d < 0.0;
      assert d < 0.0 && slope < 0.0 ==> 0.0 < slope * d;
    }
  }

  /** A weight moves against the measured slope: away from a neighbour that took longer, towards one that
      took less time. */
  lemma {:induction false} MovesDownhill(s: seq<real>, t0: real, times: seq<real>, j: nat)
    requires j < |s| == |times| && Searchable(s)
    ensures MovedAgainst(s[j], Normalised(Stepped(s, j, |s|))[j], t0 - times[j], Moved(s, t0, times, |s|)[j])
  {
    AgainstSlope(s[j], Normalised(Stepped(s, j, |s|))[j], t0 - times[j], Slope(s, j, t0, times[j]));
  }

  method Eliminate(a: array<real>, minimum: real)
    modifies a
    ensures a[..] == Shifted(old(a[..]), minimum, a.Length)
  {
    if minimum < 0.0 {
      var positive := minimum * -1.0;
      var i := 0;
      while i < a.Length
        invariant 0 <= i <= a.Length
        invariant forall k :: 0 <= k < i ==> a[k] == old(a[k]) + positive
        invariant forall k :: i <= k < a.Length ==> a[k] == old(a[k])
      {
        a[i] := a[i] + positive;
        i := i + 1;
      }
    }
  }

  /** What the normalisation of main makes of the moved weights. */
  ghost predicate Recentred(moved: seq<real>, ok: bool, end: seq<real>) {
    exists index: nat :: Picks(moved, |moved|, index)
      && var shifted := Shifted(moved, moved[index], |moved|);
         ok == (Total(shifted) != 0.0) && end == if ok then Normalised(shifted) else shifted
  }

  /** Where one iteration ends: at a point that totals 100, or with a division by zero. */
  ghost predicate Lands(s: seq<real>, t0: real, times: seq<real>, ok: bool, end: seq<real>)
    requires |s| == |times|
  {
    if Searchable(s) then Recentred(Moved(s, t0, times, |s|), ok, end) else !ok && end == s
  }

  /** A smaller entry stands before the last one that is below the least truncated value, and some entry
      is above that one. */
  ghost predicate Spoils(s: seq<real>)
    requires s != []
  {
    exists i, j :: 0 <= i < j < |s| && s[i] < s[j] && Below(s, LeastTrunc(s, |s|), j)
                && (forall k :: j < k < |s| ==> !Below(s, LeastTrunc(s, |s|), k))
                && (exists k :: 0 <= k < |s| && s[j] < s[k])
  }

  lemma {:induction false} LastBelowIsPicked(s: seq<real>, index: nat, j: nat)
    requires Picks(s, |s|, index) && j < |s| && Below(s, LeastTrunc(s, |s|), j)
    requires forall k :: j < k < |s| ==> !Below(s, LeastTrunc(s, |s|), k)
    ensures index == j
  {
    assert Below(s, LeastTrunc(s, |s|), index);
  }

  lemma {:induction false} SpoilsIf(s: seq<real>, index: nat)
    requires Picks(s, |s|, index) && LeavesNegative(s) && exists k :: 0 <= k < |s| && s[index] < s[k]
    ensures Spoils(s)
  {
    var m := LeastTrunc(s, |s|);
    var i, j :| 0 <= i < j < |s| && s[i] < s[j] && Below(s, m, j) && forall k :: j < k < |s| ==> !Below(s, m, k);
    LastBelowIsPicked(s, index, j);
  }

  lemma {:induction false} SpoilsIff(s: seq<real>, index: nat)
    requires Picks(s, |s|, index)
    ensures Spoils(s) <==> LeavesNegative(s) && exists k :: 0 <= k < |s| && s[index] < s[k]
  {
    var m := LeastTrunc(s, |s|);
    if Spoils(s) {
      var i, j :| 0 <= i < j < |s| && s[i] < s[j] && Below(s, m, j)
               && (forall k :: j < k < |s| ==> !Below(s, m, k)) && exists k :: 0 <= k < |s| && s[j] < s[k];
      LastBelowIsPicked(s, index, j);
    }
    if LeavesNegative(s) && exists k :: 0 <= k < |s| && s[index] < s[k] { SpoilsIf(s, index); }
  }

  /** The shifted weights differ in sign exactly when the moved ones spoil. */
  lemma {:induction false} ShiftedSigns(s: seq<real>, index: nat)
    requires Picks(s, |s|, index)
    ensures var r := Shifted(s, s[index], |s|);
            NonNegative(r) || (forall i :: 0 <= i < |r| ==> r[i] <= 0.0) <==> !Spoils(s)
  {
    var r := Shifted(s, s[index], |s|);
    LeftoverIff(s, index);
    SpoilsIff(s, index);
    PickNegative(s, index);
    if Spoils(s) {
      var k :| 0 <= k < |s| && s[index] < s[k];
      assert 0.0 < r[k];
    } else if LeavesNegative(s) {
      forall i | 0 <= i < |r| ensures r[i] <= 0.0 {
        assert s[i] <= s[index];
      }
    }
  }

  /** All weights are the same and none is positive: the shift leaves nothing to divide by. */
  ghost predicate Vanishes(s: seq<real>)
    requires s != []
  {
    s[0] <= 0.0 && forall i :: 0 <= i < |s| ==> s[i] == s[0]
  }

  /** Without a spoiling order the shifted weights total zero exactly when they vanish. */
  lemma {:induction false} ZeroTotalIff(s: seq<real>, index: nat)
    requires Picks(s, |s|, index) && !Spoils(s)
    ensures Total(Shifted(s, s[index], |s|)) == 0.0 <==> Vanishes(s)
  {
    var r := Shifted(s, s[index], |s|);
    ShiftedSigns(s, index);
    PickNegative(s, index);
    if Total(r) == 0.0 {
      forall i | 0 <= i < |s| ensures r[i] == 0.0 {
        if NonNegative(r) { SumNonNegative(r, |r|, i); } else { SumNonPositive(r, |r|, i); }
      }
      assert forall i :: 0 <= i < |s| ==> r[i] == Shift(s[i], s[index]);
    }
    if Vanishes(s) {
      assert forall i :: 0 <= i < |s| ==> r[i] == 0.0;
      SumAtMostZero(r, |r|);
      SumAtLeastZero(r, |r|);
    }
  }

  /** The result totals 100 unless the source divides by zero, and is a point exactly when the moved
      weights neither spoil nor vanish. */
  lemma {:induction false} RecentredIsAPoint(moved: seq<real>, ok: bool, end: seq<real>)
    requires moved != [] && Recentred(moved, ok, end)
    ensures ok ==> Total(end) == 100.0
    ensures !Spoils(moved) ==> (!ok <==> Vanishes(moved))
    ensures ok && NonNegative(end) <==> !Spoils(moved) && !Vanishes(moved)
  {
    var index: nat :| Picks(moved, |moved|, index)
      && var shifted := Shifted(moved, moved[index], |moved|);
         ok == (Total(shifted) != 0.0) && end == if ok then Normalised(shifted) else shifted;
    var shifted := Shifted(moved, moved[index], |moved|);
    if !Spoils(moved) { ZeroTotalIff(moved, index); }
    if ok {
      ShiftedSigns(moved, index);
      NormalisedTotals(shifted);
      NormalisedSign(shifted);
    }
  }

  /** The measured times determine where an iteration ends. */
  lemma {:induction false} LandsOnce(s: seq<real>, t0: real, times: seq<real>, ok: bool, end: seq<real>,
                                     ok': bool, end': seq<real>)
    requires |s| == |times| && Lands(s, t0, times, ok, end) && Lands(s, t0, times, ok', end')
    ensures ok == ok' && end == end'
  {
    if Searchable(s) {
      var moved := Moved(s, t0, times, |s|);
      var i: nat :| Picks(moved, |moved|, i)
        && var shifted := Shifted(moved, moved[i], |moved|);
           ok == (Total(shifted) != 0.0) && end == if ok then Normalised(shifted) else shifted;
      var j: nat :| Picks(moved, |moved|, j)
        && var shifted := Shifted(moved, moved[j], |moved|);
           ok' == (Total(shifted) != 0.0) && end' == if ok' then Normalised(shifted) else shifted;
      PickUnique(moved, |moved|, i, j);
    }
  }

  lemma {:induction false} PointsAreSearchable(s: seq<real>)
    requires NonNegative(s)
    ensures Searchable(s)
  {
    forall j | 0 <= j < |s| ensures Total(Stepped(s, j, |s|)) != 0.0 {
      NeighbourIsAPoint(s, j);
    }
  }

  /** The moved weights of an iteration spoil or vanish. */
  ghost predicate Derails(s: seq<real>, t0: real, times: seq<real>)
    requires |s| == |times| > 0 && Searchable(s)
  {
    var moved := Moved(s, t0, times, |s|);
    Spoils(moved) || Vanishes(moved)
  }

  /** From a point every neighbour can be measured, and one iteration leads to a point exactly when it does
      not derail. */
  lemma {:induction false} SearchKeepsPoints(s: seq<real>, t0: real, times: seq<real>, ok: bool, end: seq<real>)
    requires |s| == |times| > 0 && NonNegative(s) && Lands(s, t0, times, ok, end)
    ensures Searchable(s)
    ensures ok ==> Total(end) == 100.0
    ensures ok && NonNegative(end) <==> !Derails(s, t0, times)
  {
    PointsAreSearchable(s);
    RecentredIsAPoint(Moved(s, t0, times, |s|), ok, end);
  }

  // ----- the whole search -----

  /** The weights of a search at one time; after a division by zero they are no numbers any more. */
  datatype Place = At(weights: seq<real>) | Undefined

  ghost predicate StepsTo(p: Place, t0: real, times: seq<real>, p': Place) {
    match p
    case Undefined => p' == Undefined
    case At(s) =>
      && |s| == |times| > 0
      && if p'.At? then Lands(s, t0, times, true, p'.weights) else exists end :: Lands(s, t0, times, false, end)
  }

  ghost predicate SearchStep(places: seq<Place>, t0: seq<real>, times: seq<seq<real>>, i: nat)
    requires |places| == |t0| + 1 == |times| + 1 && i < |t0|
  {
    StepsTo(places[i], t0[i], times[i], places[i + 1])
  }

  /** The places of a search, each reached from the one before it. */
  ghost predicate Search(places: seq<Place>, t0: seq<real>, times: seq<seq<real>>) {
    && |places| == |t0| + 1 == |times| + 1
    && forall i :: 0 <= i < |t0| ==> SearchStep(places, t0, times, i)
  }

  ghost predicate Point(places: seq<Place>, i: nat)
    requires i < |places|
  {
    places[i].At? && NonNegative(places[i].weights)
  }

  /** Iteration i starts at a point and derails. */
  ghost predicate DerailsAt(places: seq<Place>, t0: seq<real>, times: seq<seq<real>>, i: nat)
    requires i < |places| && i < |t0| && i < |times|
  {
    && Point(places, i) && |places[i].weights| == |times[i]| > 0
    && Searchable(places[i].weights) && Derails(places[i].weights, t0[i], times[i])
  }

  lemma {:induction false} StepStays(places: seq<Place>, t0: seq<real>, times: seq<seq<real>>, i: nat)
    requires Search(places, t0, times) && i < |t0| && Point(places, i)
    ensures Point(places, i + 1) <==> !DerailsAt(places, t0, times, i)
  {
    assert SearchStep(places, t0, times, i);
    var s, next := places[i].weights, places[i + 1];
    if next.At? {
      SearchKeepsPoints(s, t0[i], times[i], true, next.weights);
    } else {
      var end :| Lands(s, t0[i], times[i], false, end);
      SearchKeepsPoints(s, t0[i], times[i], false, end);
    }
  }

  ghost predicate NoneDerails(places: seq<Place>, t0: seq<real>, times: seq<seq<real>>, n: nat)
    requires n <= |t0| && Search(places, t0, times)
  {
    forall i :: 0 <= i < n ==> !DerailsAt(places, t0, times, i)
  }

  lemma {:induction false} StaysTo(places: seq<Place>, t0: seq<real>, times: seq<seq<real>>, n: nat)
    requires Search(places, t0, times) && Point(places, 0) && n <= |t0| && NoneDerails(places, t0, times, n)
    ensures Point(places, n)
  {
    if n > 0 {
      StaysTo(places, t0, times, n - 1);
      StepStays(places, t0, times, n - 1);
    }
  }

  /** A search that starts at a point stays on points, and on numbers, exactly when no iteration from a
      point derails. */
  lemma {:induction false} SearchStaysIff(places: seq<Place>, t0: seq<real>, times: seq<seq<real>>)
    requires Search(places, t0, times) && Point(places, 0)
    ensures (forall i :: 0 <= i < |places| ==> Point(places, i)) <==> NoneDerails(places, t0, times, |t0|)
  {
    if forall i :: 0 <= i < |places| ==> Point(places, i) {
      forall i | 0 <= i < |t0| ensures !DerailsAt(places, t0, times, i) {
        assert Point(places, i + 1);
        StepStays(places, t0, times, i);
      }
    }
    if NoneDerails(places, t0, times, |t0|) {
      forall i | 0 <= i < |places| ensures Point(places, i) {
        StaysTo(places, t0, times, i);
      }
    }
  }

  // ----- an iteration that goes wrong -----

  lemma {:induction false} SumOfEight(s: seq<real>)
    requires |s| == 8
    ensures Total(s) == s[0] + s[1] + s[2] + s[3] + s[4] + s[5] + s[6] + s[7]
  {
    var r := s[0];
    assert RealSum(s, 1) == r;
    assert RealSum(s, 2) == r + s[1];
    assert RealSum(s, 3) == r + s[1] + s[2];
    assert RealSum(s, 4) == r + s[1] + s[2] + s[3];
    assert RealSum(s, 5) == r + s[1] + s[2] + s[3] + s[4];
    assert RealSum(s, 6) == r + s[1] + s[2] + s[3] + s[4] + s[5];
    assert RealSum(s, 7) == r + s[1] + s[2] + s[3] + s[4] + s[5] + s[6];
  }

  /** The average of three runs that took so many whole seconds together. */
  function Average(seconds: nat): real {
    seconds as real / 3.0
  }

  /** The weights that the program starts from. */
  function InitialWeights(): seq<real> {
    [50.0, 50.0, 0.0, 0.0, 0.0, 0.0, 0.0, 0.0]
  }

  /** Where the times below move the initial weights to, and the weights after the shift. */
  function SpoiledWeights(): seq<real> {
    [50.0 - 30422.0 / 600.0, 50.0 - 10017.0 / 200.0, 0.0, 0.0, 0.0, 0.0, 0.0, 0.0]
  }

  function SpoiledAfterShift(): seq<real> {
    [-371.0 / 600.0, 0.0, 17.0 / 200.0, 17.0 / 200.0, 17.0 / 200.0, 17.0 / 200.0, 17.0 / 200.0, 17.0 / 200.0]
  }

  /** The slope along one of the initial weights: a neighbour is 200/53 or 20/3 above it. */
  lemma {:induction false} InitialSlope(j: nat, t0: real, time: real)
    requires j < 8 && Searchable(InitialWeights())
    ensures Slope(InitialWeights(), j, t0, time) == (t0 - time) / (if j < 2 then -200.0 / 53.0 else -20.0 / 3.0)
  {
    var stepped := Stepped(InitialWeights(), j, 8);
    SumOfEight(stepped);
    if j < 2 {
      assert Normalised(stepped)[j] == Percent(57.0, 106.0);
    } else {
      assert Normalised(stepped)[j] == Percent(7.0, 105.0);
    }
  }

  lemma {:induction false} InitialMove(s: seq<real>, j: nat, t0: real, time: real, extra: real)
    requires s == InitialWeights() && j < 8 && Searchable(s) && time == t0 + extra
    ensures s[j] - W_STEP * Slope(s, j, t0, time) == if j < 2 then 50.0 - 371.0 / 200.0 * extra else -21.0 / 20.0 * extra
  {
    InitialSlope(j, t0, time);
  }

  lemma {:induction false} TimesSpoil(s: seq<real>, t0: real, times: seq<real>, moved: seq<real>)
    requires s == InitialWeights() && Searchable(s) && |times| == |s| && moved == Moved(s, t0, times, |s|)
    requires times[0] == t0 + 82.0 / 3.0 && times[1] == t0 + 27.0 && forall j :: 2 <= j < |s| ==> times[j] == t0
    ensures moved == SpoiledWeights()
  {
    InitialMove(s, 0, t0, times[0], 82.0 / 3.0);
    InitialMove(s, 1, t0, times[1], 27.0);
    forall j | 2 <= j < |s| ensures moved[j] == 0.0 {
      InitialMove(s, j, t0, times[j], 0.0);
    }
  }

  lemma {:induction false} SpoiledPick(moved: seq<real>, n: nat)
    requires moved == SpoiledWeights() && n == |moved|
    ensures Picks(moved, n, 1)
    ensures Shifted(moved, moved[1], n) == SpoiledAfterShift()
  {
    assert forall i :: 0 <= i < n ==> Trunc(moved[i]) == 0;
    assert Below(moved, 0, 1);
  }

  /** The shifted weights total -13/120, and that is what all of them are divided by. */
  lemma {:induction false} SpoiledResult(shifted: seq<real>)
    requires shifted == SpoiledAfterShift()
    ensures Total(shifted) == -13.0 / 120.0
    ensures Normalised(shifted)[0] > 570.0 && forall i :: 2 <= i < 8 ==> Normalised(shifted)[i] < -78.0
  {
    SumOfEight(shifted);
    assert Normalised(shifted)[0] == Percent(-371.0 / 600.0, -13.0 / 120.0);
    forall i | 2 <= i < 8 ensures Normalised(shifted)[i] < -78.0 {
      assert Normalised(shifted)[i] == Percent(17.0 / 200.0, -13.0 / 120.0);
    }
  }

  lemma {:induction false} SpoiledLands(s: seq<real>, t0: real, times: seq<real>) returns (end: seq<real>)
    requires s == InitialWeights() && Searchable(s) && |times| == |s|
    requires times[0] == t0 + 82.0 / 3.0 && times[1] == t0 + 27.0 && forall j :: 2 <= j < |s| ==> times[j] == t0
    ensures Lands(s, t0, times, true, end)
    ensures |end| == 8 && end[0] > 570.0 && forall i :: 2 <= i < 8 ==> end[i] < -78.0
  {
    var moved := Moved(s, t0, times, |s|);
    TimesSpoil(s, t0, times, moved);
    SpoiledPick(moved, |moved|);
    var shifted := Shifted(moved, moved[1], |moved|);
    SpoiledResult(shifted);
    end := Normalised(shifted);
  }

  lemma {:induction false} InitialIsAPoint(s: seq<real>)
    requires s == InitialWeights()
    ensures NonNegative(s) && Total(s) == 100.0 && Searchable(s)
  {
    SumOfEight(s);
    PointsAreSearchable(s);
  }

  /** From the program's own start, whatever the three runs there take, if the first neighbour takes 82
      seconds more, the second 81 and the others the same, one iteration ends with a weight over 570 and
      six under -78. */
  lemma {:induction false} IterationLeavesNegative(s: seq<real>, t: nat) returns (times: seq<real>, end: seq<real>)
    requires s == InitialWeights()
    ensures NonNegative(s) && Total(s) == 100.0
    ensures times == [Average(t + 82), Average(t + 81), Average(t), Average(t), Average(t), Average(t), Average(t),
                      Average(t)]
    ensures Lands(s, Average(t), times, true, end)
    ensures |end| == 8 && end[0] > 570.0 && forall i :: 2 <= i < 8 ==> end[i] < -78.0
  {
    times := [Average(t + 82), Average(t + 81), Average(t), Average(t), Average(t), Average(t), Average(t), Average(t)];
    InitialIsAPoint(s);
    end := SpoiledLands(s, Average(t), times);
  }

  // ----- the method -----

  /** The derivative of every dimension, from the normalised neighbours. */
  method Slopes(weights: array<real>, t0: real, times: seq<real>, slopes: array<real>) returns (ok: bool)
    requires weights.Length == |times| == slopes.Length && weights != slopes
    modifies slopes
    ensures ok <==> Searchable(weights[..])
    ensures ok ==> forall j :: 0 <= j < |times| ==> slopes[j] == Slope(weights[..], j, t0, times[j])
  {
    ghost var start := weights[..];
    var n := weights.Length;
    var neighbour := new real[n](_ => 0.0);
    var j := 0;
    while j < n
      invariant 0 <= j <= n && weights[..] == start
      invariant forall k :: 0 <= k < j ==> Total(Stepped(start, k, n)) != 0.0
      invariant forall k :: 0 <= k < j ==> slopes[k] == Slope(start, k, t0, times[k])
    {
      ok := Neighbour(weights, j, neighbour);
      if !ok {
        return;
      }
      assert neighbour[j] == neighbour[..][j];
      if weights[j] - neighbour[j] == 0.0 {
        slopes[j] := 1.0;
      } else {
        slopes[j] := (t0 - times[j]) / (weights[j] - neighbour[j]);
      }
      j := j + 1;
    }
    ok := true;
  }

  method Move(weights: array<real>, slopes: array<real>)
    requires weights.Length == slopes.Length && weights != slopes
    modifies weights
    ensures forall k :: 0 <= k < weights.Length ==> weights[k] == old(weights[k]) - W_STEP * slopes[k]
  {
    var j := 0;
    while j < weights.Length
      invariant 0 <= j <= weights.Length
      invariant forall k :: 0 <= k < j ==> weights[k] == old(weights[k]) - W_STEP * slopes[k]
      invariant forall k :: j <= k < weights.Length ==> weights[k] == old(weights[k])
    {
      weights[j] := weights[j] - W_STEP * slopes[j];
      j := j + 1;
    }
  }

  method Recentre(weights: array<real>) returns (ok: bool)
    requires weights.Length > 0
    modifies weights
    ensures Recentred(old(weights[..]), ok, weights[..])
    ensures ok ==> Total(weights[..]) == 100.0
  {
    var location := FindMinimum(weights);
    Eliminate(weights, weights[location]);
    ghost var shifted := weights[..];
    ok := Normalise(weights);
    if ok { NormalisedTotals(shifted); }
  }

  /** One iteration over the measured times. */
  method Iterate(weights: array<real>, t0: real, times: seq<real>) returns (ok: bool)
    requires weights.Length == |times| > 0
    modifies weights
    ensures Lands(old(weights[..]), t0, times, ok, weights[..])
    ensures ok ==> Total(weights[..]) == 100.0
  {
    ghost var start := weights[..];
    var slopes := new real[weights.Length](_ => 0.0);
    ok := Slopes(weights, t0, times, slopes);
    if !ok {
      return;
    }
    Move(weights, slopes);
    MovedIs(start, t0, times, slopes[..], weights[..]);
    ok := Recentre(weights);
  }

  /** The loop of main: one iteration for each set of measured times, until there are no numbers left. */
  method Optimise(weights: array<real>, t0: seq<real>, times: seq<seq<real>>)
      returns (ok: bool, ghost places: seq<Place>)
    requires weights.Length > 0 && |t0| == |times| && forall i :: 0 <= i < |times| ==> |times[i]| == weights.Length
    modifies weights
    ensures Search(places, t0, times) && places[0] == At(old(weights[..]))
    ensures places[|t0|] == if ok then At(weights[..]) else Undefined
  {
    ok := true;
    places := [At(weights[..])];
    for n := 0 to |t0|
      invariant Search(places, t0[..n], times[..n]) && places[0] == At(old(weights[..]))
      invariant places[n] == if ok then At(weights[..]) else Undefined
    {
      ghost var s := weights[..];
      if ok {
        ok := Iterate(weights, t0[n], times[n]);
        assert Lands(s, t0[n], times[n], ok, weights[..]);
      }
      ghost var next := if ok then At(weights[..]) else Undefined;
      SearchGrows(places, t0[..n], times[..n], t0[n], times[n], next);
      assert t0[..n + 1] == t0[..n] + [t0[n]] && times[..n + 1] == times[..n] + [times[n]];
      places := places + [next];
    }
    assert t0[..|t0|] == t0 && times[..|t0|] == times;
  }

  lemma {:induction false} SearchGrows(places: seq<Place>, t0: seq<real>, times: seq<seq<real>>, t: real,
                                       time: seq<real>, next: Place)
    requires Search(places, t0, times) && StepsTo(places[|t0|], t, time, next)
    ensures Search(places + [next], t0 + [t], times + [time])
  {
    forall i | 0 <= i <= |t0| ensures SearchStep(places + [next], t0 + [t], times + [time], i) {
      if i < |t0| { assert SearchStep(places, t0, times, i); }
    }
  }

  lemma {:induction false} MovedIs(s: seq<real>, t0: real, times: seq<real>, slopes: seq<real>, moved: seq<real>)
    requires |s| == |times| == |slopes| == |moved| && Searchable(s)
    requires forall j :: 0 <= j < |s| ==> slopes[j] == Slope(s, j, t0, times[j])
    requires forall j :: 0 <= j < |s| ==> moved[j] == s[j] - W_STEP * slopes[j]
    ensures moved == Moved(s, t0, times, |s|)
  {
    var n := |s|;
    forall j | 0 <= j < n ensures moved[j] == Moved(s, t0, times, n)[j] {
      assert slopes[j] == Slope(s, j, t0, times[j]);
    }
  }
}
