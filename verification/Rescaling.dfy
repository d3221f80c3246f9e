/** Rescaling the weight table by the shift s towards the workers, and the sum checks around it. */
module Rescaling {
  import opened Outcomes
  import opened Rounding
  import opened Dealing
  import opened Kernel
  import opened WeightedPlacement
  import opened InterleavedShares

  /** The worker node the source picks for a given number of workers; other numbers end the process. */
  function WorkerId(workers: int): int {
    if workers == 1 then 0 else 1
  }

  predicate Supported(workers: int) {
    workers == 1 || workers == 2
  }

  /** The weights of the worker node, or of the others, among the first n. */
  function SideSum(nodes: seq<Record>, id: int, worker: bool, n: nat): real
    requires n <= |nodes|
  {
    if n == 0 then 0.0
    else SideSum(nodes, id, worker, n - 1)
         + (if (nodes[n - 1].id == id) == worker then nodes[n - 1].weight else 0.0)
  }

  /** weight / sum * share, as the source writes it. */
  function Scale(weight: real, sum: real, share: real): real
    requires sum != 0.0
  {
    weight / sum * share
  }

  /** Rounding to one decimal. */
  function Tenths(x: real): real {
    Round(x * 10.0) as real / 10.0
  }

  function RescaledWeight(r: Record, id: int, sumWw: real, sumNww: real, newS: real): real
    requires sumWw != 0.0 && sumNww != 0.0
  {
    if r.id == id then Scale(r.weight, sumWw, newS) else Scale(r.weight, sumNww, 100.0 - newS)
  }

  function Rescaled(nodes: seq<Record>, id: int, sumWw: real, sumNww: real, newS: real): (temp: seq<Record>)
    requires sumWw != 0.0 && sumNww != 0.0
    ensures |temp| == |nodes|
    ensures forall i :: 0 <= i < |nodes| ==>
      temp[i] == Record(nodes[i].id, Tenths(RescaledWeight(nodes[i], id, sumWw, sumNww, newS)))
  {
    if nodes == [] then []
    else
      var k := |nodes| - 1;
      Rescaled(nodes[..k], id, sumWw, sumNww, newS)
      + [Record(nodes[k].id, Tenths(RescaledWeight(nodes[k], id, sumWw, sumNww, newS)))]
  }

  /** The part of the share is to the share as the weight is to the sum. */
  lemma {:induction false} ScaleIs(weight: real, sum: real, share: real)
    requires sum != 0.0
    ensures Scale(weight, sum, share) * sum == weight * share
  {
    var q := weight / sum;
    assert q * sum == weight;
    assert q * share * sum == q * sum * share;
  }

  /** The nearest tenth of a weight, halves away from zero. */
  ghost predicate NearestTenth(x: real, t: real) {
    && (t * 10.0).Floor as real == t * 10.0
    && x - 0.05 <= t <= x + 0.05 && (t == x - 0.05 ==> x < 0.0) && (t == x + 0.05 ==> 0.0 <= x)
  }

  lemma {:induction false} TenthsNearest(x: real)
    ensures NearestTenth(x, Tenths(x))
  {
    var k := Round(x * 10.0);
    assert Tenths(x) * 10.0 == k as real;
    assert (k as real).Floor == k;
  }

  /** The new table: node `id` gets its part of the new share of the workers, every other node its part of
      what is left. */
  ghost predicate NewRecords(nodes: seq<Record>, temp: seq<Record>, id: int, sumWw: real, sumNww: real, s: real)
    requires sumWw != 0.0 && sumNww != 0.0
  {
    && |temp| == |nodes|
    && forall i :: 0 <= i < |nodes| ==>
         && temp[i].id == nodes[i].id
         && NearestTenth(if nodes[i].id == id then Scale(nodes[i].weight, sumWw, sumWw + s)
                         else Scale(nodes[i].weight, sumNww, 100.0 - (sumWw + s)), temp[i].weight)
  }

  lemma {:induction false} RescaledRecords(nodes: seq<Record>, id: int, sumWw: real, sumNww: real, s: real)
    requires sumWw != 0.0 && sumNww != 0.0
    ensures NewRecords(nodes, Rescaled(nodes, id, sumWw, sumNww, sumWw + s), id, sumWw, sumNww, s)
  {
    forall i | 0 <= i < |nodes|
      ensures NearestTenth(RescaledWeight(nodes[i], id, sumWw, sumNww, sumWw + s),
                           Rescaled(nodes, id, sumWw, sumNww, sumWw + s)[i].weight)
    {
      TenthsNearest(RescaledWeight(nodes[i], id, sumWw, sumNww, sumWw + s));
    }
  }

  /** check_sum. */
  method CheckSum(nodes: seq<Record>) returns (total: int)
    ensures total == Round(TotalWeight(nodes, |nodes|))
  {
    var sum := 0.0;
    for i := 0 to |nodes|
      invariant sum == TotalWeight(nodes, i)
    {
      sum := sum + nodes[i].weight;
    }
    total := Round(sum);
  }

  /** The global weight tables and sums. */
  class Weights {
    var nodesInfo: seq<Record>
    var nodesInfoTemp: seq<Record>
    var sumWw: real
    var sumNww: real
    var weightInitialized: bool

    constructor (nodes: seq<Record>)
      ensures nodesInfo == nodes && sumWw == 0.0 && sumNww == 0.0 && !weightInitialized
    {
      nodesInfo := nodes;
      nodesInfoTemp := [];
      sumWw, sumNww := 0.0, 0.0;
      weightInitialized := false;
    }

    /** get_sum_nww_ww: the sums accumulate in the globals, and must round to 100. */
    method GetSums(workers: int) returns (r: Outcome<()>)
      modifies this`sumWw, this`sumNww
      ensures workers == 1 ==>
        && sumWw == old(sumWw) + SideSum(nodesInfo, 0, true, |nodesInfo|)
        && sumNww == old(sumNww) + SideSum(nodesInfo, 0, false, |nodesInfo|)
      ensures workers == 2 ==>
        && sumWw == old(sumWw) + SideSum(nodesInfo, 1, true, |nodesInfo|)
        && sumNww == old(sumNww) + SideSum(nodesInfo, 1, false, |nodesInfo|)
      ensures r.Ok? <==> (workers == 1 || workers == 2) && Round(sumNww + sumWw) == 100
      ensures workers != 1 && workers != 2 ==> sumWw == old(sumWw) && sumNww == old(sumNww)
    {
      if workers != 1 && workers != 2 {
        return Die("workers is not supported at the moment!");
      }
      var id := WorkerId(workers);
      for i := 0 to |nodesInfo|
        invariant sumWw == old(sumWw) + SideSum(nodesInfo, id, true, i)
        invariant sumNww == old(sumNww) + SideSum(nodesInfo, id, false, i)
      {
        if nodesInfo[i].id == id {
          sumWw := sumWw + nodesInfo[i].weight;
        } else {
          sumNww := sumNww + nodesInfo[i].weight;
        }
      }
      if Round(sumNww + sumWw) != 100 {
        return Die("Sum of WW and NWW must be equal to 100!");
      }
      r := Ok(());
    }

    /** The part of place_pages_weighted_s before the placement: the table is rescaled once, and kept
        until the flag is cleared. */
    method Rescale(s: real, workers: int) returns (r: Outcome<()>)
      requires sumWw != 0.0 && sumNww != 0.0
      modifies this`nodesInfoTemp, this`weightInitialized
      ensures old(weightInitialized) ==> r.Ok? && weightInitialized && nodesInfoTemp == old(nodesInfoTemp)
      ensures !old(weightInitialized) && (Supported(workers) || nodesInfo == []) ==>
        && nodesInfoTemp == Rescaled(nodesInfo, WorkerId(workers), sumWw, sumNww, sumWw + s)
        && (r.Ok? <==> Round(TotalWeight(nodesInfoTemp, |nodesInfoTemp|)) == 100)
        && (r.Ok? <==> weightInitialized)
      ensures !old(weightInitialized) && !Supported(workers) && nodesInfo != [] ==> r.Die? && !weightInitialized
      ensures !old(weightInitialized) && r.Ok? ==>
        nodesInfoTemp == Rescaled(nodesInfo, WorkerId(workers), sumWw, sumNww, sumWw + s)
      ensures !old(weightInitialized) && r.Ok? && workers == 1 ==>
        NewRecords(nodesInfo, nodesInfoTemp, 0, sumWw, sumNww, s)
      ensures !old(weightInitialized) && r.Ok? && workers == 2 ==>
        NewRecords(nodesInfo, nodesInfoTemp, 1, sumWw, sumNww, s)
    {
      if !weightInitialized {
        var filled := FillTable(sumWw + s, workers);
        if !filled {
          return Die("Worker nodes is not supported at the moment!");
        }
        var total := CheckSum(nodesInfoTemp);
        if total != 100 {
          return Die("Sum of New weights must be equal to 100");
        }
        RescaledRecords(nodesInfo, WorkerId(workers), sumWw, sumNww, s);
        weightInitialized := true;
      }
      r := Ok(());
    }

    /** Its loop; false where the source ends the process because of the number of workers. */
    method FillTable(newS: real, workers: int) returns (ok: bool)
      requires sumWw != 0.0 && sumNww != 0.0
      modifies this`nodesInfoTemp
      ensures ok <==> workers == 1 || workers == 2 || nodesInfo == []
      ensures ok ==> nodesInfoTemp == Rescaled(nodesInfo, WorkerId(workers), sumWw, sumNww, newS)
    {
      nodesInfoTemp := [];
      for i := 0 to |nodesInfo|
        invariant nodesInfoTemp == Rescaled(nodesInfo[..i], WorkerId(workers), sumWw, sumNww, newS)
        invariant i > 0 ==> workers == 1 || workers == 2
      {
        if workers != 1 && workers != 2 {
          return false;
        }
        ghost var part := nodesInfo[..i + 1];
        assert part[..i] == nodesInfo[..i] && part[i] == nodesInfo[i];
        if nodesInfo[i].id == WorkerId(workers) {
          nodesInfoTemp := nodesInfoTemp + [Record(nodesInfo[i].id, Tenths(Scale(nodesInfo[i].weight, sumWw, newS)))];
        } else {
          nodesInfoTemp := nodesInfoTemp
            + [Record(nodesInfo[i].id, Tenths(Scale(nodesInfo[i].weight, sumNww, 100.0 - newS)))];
        }
      }
      assert nodesInfo[..|nodesInfo|] == nodesInfo;
      ok := true;
    }

    /** place_pages_weighted_s, for tables that stay sorted. */
    method PlacePagesWeightedS(addr: nat, len: nat, g: nat, s: real, workers: int) returns (r: Outcome<seq<Mbind>>)
      requires sumWw != 0.0 && sumNww != 0.0 && 0 < g
      requires if weightInitialized then Sorted(nodesInfoTemp)
               else Sorted(Rescaled(nodesInfo, WorkerId(workers), sumWw, sumNww, sumWw + s))
      modifies this`nodesInfoTemp, this`weightInitialized
      ensures old(weightInitialized) ==> r.Ok?
      ensures !old(weightInitialized) ==>
        (r.Ok? <==> (workers == 1 || workers == 2 || nodesInfo == [])
                    && Round(TotalWeight(Rescaled(nodesInfo, WorkerId(workers), sumWw, sumNww, sumWw + s),
                                         |nodesInfo|)) == 100)
      ensures r.Ok? ==> weightInitialized && Sorted(nodesInfoTemp)
                        && r.value == WeightedCalls(nodesInfoTemp, addr, len, g, |nodesInfoTemp|)
      ensures !old(weightInitialized) && r.Ok? ==>
        nodesInfoTemp == Rescaled(nodesInfo, WorkerId(workers), sumWw, sumNww, sumWw + s)
    {
      ghost var target := if weightInitialized then nodesInfoTemp
                          else Rescaled(nodesInfo, WorkerId(workers), sumWw, sumNww, sumWw + s);
      assert Sorted(target);
      var checked := Rescale(s, workers);
      if checked.Die? {
        return Die(checked.message);
      }
      var table := nodesInfoTemp;
      assert table == target;
      var calls := PlacePagesWeighted(table, addr, len, g);
      r := Ok(calls);
    }
  }

  // ----- the new sum -----

  lemma {:induction false} ScaleAdds(x: real, y: real, sum: real, share: real)
    requires sum != 0.0
    ensures Scale(x + y, sum, share) == Scale(x, sum, share) + Scale(y, sum, share)
  {
    assert (x + y) / sum == x / sum + y / sum;
    var a, b := x / sum, y / sum;
    assert (a + b) * share == a * share + b * share;
  }

  lemma {:induction false} ScaleWhole(sum: real, share: real)
    requires sum != 0.0
    ensures Scale(sum, sum, share) == share && Scale(0.0, sum, share) == 0.0
  {
    assert sum / sum == 1.0;
  }

  lemma {:induction false} TenthsClose(x: real)
    ensures x - 0.05 <= Tenths(x) <= x + 0.05
  {
  }

  /** The unrounded weights of the first n. */
  function Unrounded(nodes: seq<Record>, id: int, sumWw: real, sumNww: real, newS: real, n: nat): real
    requires n <= |nodes| && sumWw != 0.0 && sumNww != 0.0
  {
    if n == 0 then 0.0
    else Unrounded(nodes, id, sumWw, sumNww, newS, n - 1) + RescaledWeight(nodes[n - 1], id, sumWw, sumNww, newS)
  }

  lemma {:induction false} UnroundedSplits(nodes: seq<Record>, id: int, sumWw: real, sumNww: real, newS: real, n: nat)
    requires n <= |nodes| && sumWw != 0.0 && sumNww != 0.0
    ensures Unrounded(nodes, id, sumWw, sumNww, newS, n)
         == Scale(SideSum(nodes, id, true, n), sumWw, newS) + Scale(SideSum(nodes, id, false, n), sumNww, 100.0 - newS)
  {
    if n == 0 {
      ScaleWhole(sumWw, newS);
      ScaleWhole(sumNww, 100.0 - newS);
    } else {
      UnroundedSplits(nodes, id, sumWw, sumNww, newS, n - 1);
      var w := nodes[n - 1].weight;
      if nodes[n - 1].id == id {
        ScaleAdds(SideSum(nodes, id, true, n - 1), w, sumWw, newS);
      } else {
        ScaleAdds(SideSum(nodes, id, false, n - 1), w, sumNww, 100.0 - newS);
      }
    }
  }

  lemma {:induction false} RoundingDrift(nodes: seq<Record>, id: int, sumWw: real, sumNww: real, newS: real, n: nat)
    requires n <= |nodes| && sumWw != 0.0 && sumNww != 0.0
    ensures var total := TotalWeight(Rescaled(nodes, id, sumWw, sumNww, newS), n);
            var exact := Unrounded(nodes, id, sumWw, sumNww, newS, n);
            exact - 0.05 * n as real <= total <= exact + 0.05 * n as real
  {
    if n > 0 {
      RoundingDrift(nodes, id, sumWw, sumNww, newS, n - 1);
      TenthsClose(RescaledWeight(nodes[n - 1], id, sumWw, sumNww, newS));
    }
  }

  /** Whatever the shift, the rounded weights sum to 100 up to a twentieth per node. */
  lemma {:induction false} NewSumNearHundred(nodes: seq<Record>, id: int, s: real)
    requires SideSum(nodes, id, true, |nodes|) != 0.0 && SideSum(nodes, id, false, |nodes|) != 0.0
    ensures var sumWw, sumNww := SideSum(nodes, id, true, |nodes|), SideSum(nodes, id, false, |nodes|);
            var total := TotalWeight(Rescaled(nodes, id, sumWw, sumNww, sumWw + s), |nodes|);
            100.0 - |nodes| as real / 20.0 <= total <= 100.0 + |nodes| as real / 20.0
  {
    var sumWw, sumNww := SideSum(nodes, id, true, |nodes|), SideSum(nodes, id, false, |nodes|);
    UnroundedSplits(nodes, id, sumWw, sumNww, sumWw + s, |nodes|);
    ScaleWhole(sumWw, sumWw + s);
    ScaleWhole(sumNww, 100.0 - (sumWw + s));
    RoundingDrift(nodes, id, sumWw, sumNww, sumWw + s, |nodes|);
  }

  /** So the check after rescaling cannot fail on up to nine nodes. */
  lemma {:induction false} CheckUnreachable(nodes: seq<Record>, id: int, s: real)
    requires |nodes| <= 9
    requires SideSum(nodes, id, true, |nodes|) != 0.0 && SideSum(nodes, id, false, |nodes|) != 0.0
    ensures var sumWw, sumNww := SideSum(nodes, id, true, |nodes|), SideSum(nodes, id, false, |nodes|);
            Round(TotalWeight(Rescaled(nodes, id, sumWw, sumNww, sumWw + s), |nodes|)) == 100
  {
    var sumWw, sumNww := SideSum(nodes, id, true, |nodes|), SideSum(nodes, id, false, |nodes|);
    NewSumNearHundred(nodes, id, s);
    RoundUnique(TotalWeight(Rescaled(nodes, id, sumWw, sumNww, sumWw + s), |nodes|), 100);
  }

  // ----- the tenth node -----

  /** The check passes for every shift that leaves both sides a share, on any table of n nodes. */
  ghost predicate NeverFails(n: nat) {
    forall nodes: seq<Record>, id: int, s: real :: |nodes| == n && Shiftable(nodes, id, s) ==> Passes(nodes, id, s)
  }

  ghost predicate Shiftable(nodes: seq<Record>, id: int, s: real) {
    var sumWw, sumNww := SideSum(nodes, id, true, |nodes|), SideSum(nodes, id, false, |nodes|);
    Table(nodes) && 0.0 < sumWw && 0.0 < sumNww && sumWw + sumNww == 100.0 && 0.0 <= sumWw + s <= 100.0
  }

  ghost predicate Passes(nodes: seq<Record>, id: int, s: real)
    requires Shiftable(nodes, id, s)
  {
    var sumWw, sumNww := SideSum(nodes, id, true, |nodes|), SideSum(nodes, id, false, |nodes|);
    Round(TotalWeight(Rescaled(nodes, id, sumWw, sumNww, sumWw + s), |nodes|)) == 100
  }

  /** Zeros, then nine weights of 9.95, and the worker with 10.45 at the end. */
  function FailingWeight(n: nat, i: nat): real {
    if i + 10 < n then 0.0 else if i + 1 < n then 9.95 else 10.45
  }

  function Failing(n: nat, m: nat): (nodes: seq<Record>)
    requires m <= n
    ensures |nodes| == m
    ensures forall i :: 0 <= i < m ==> nodes[i] == Record(if i + 1 < n then i + 1 else 0, FailingWeight(n, i))
  {
    if m == 0 then []
    else Failing(n, m - 1) + [Record(if m < n then m else 0, FailingWeight(n, m - 1))]
  }

  lemma {:induction false} FailingIsTable(n: nat)
    requires 10 <= n
    ensures Table(Failing(n, n))
  {
    var nodes, ids := Failing(n, n), Ids(Failing(n, n));
    forall i | 0 <= i < n ensures 0.0 <= Step(nodes, i) {
    }
    forall i, j | 0 <= i < j < n ensures Differ(ids, i, j) {
    }
    forall k | k in ids ensures 0 <= k < n {
      var i :| 0 <= i < n && ids[i] == k;
    }
  }

  /** How many of the first m weights are 9.95. */
  function Nines(n: nat, m: nat): nat
    requires m < n
  {
    if m + 10 <= n then 0 else m + 10 - n
  }

  lemma {:induction false} FailingSums(n: nat, m: nat)
    requires 10 <= n && m < n
    ensures SideSum(Failing(n, n), 0, true, m) == 0.0
    ensures SideSum(Failing(n, n), 0, false, m) == 9.95 * Nines(n, m) as real
  {
    if m > 0 { FailingSums(n, m - 1); }
  }

  lemma {:induction false} FailingTotal(n: nat, temp: seq<Record>, m: nat)
    requires 10 <= n && m < n == |temp|
    requires forall i :: 0 <= i < n - 1 ==> temp[i].weight == if i + 10 < n then 0.0 else 10.0
    ensures TotalWeight(temp, m) == 10.0 * Nines(n, m) as real
  {
    if m > 0 { FailingTotal(n, temp, m - 1); }
  }

  /** 9.95 becomes 10.0 and 10.45 becomes 10.5, without any shift at all. */
  lemma {:induction false} FailingRescaled()
    ensures Tenths(Scale(0.0, 89.55, 100.0 - 10.45)) == 0.0
    ensures Tenths(Scale(9.95, 89.55, 100.0 - 10.45)) == 10.0
    ensures Tenths(Scale(10.45, 10.45, 10.45)) == 10.5
  {
    ScaleWhole(10.45, 10.45);
    assert Scale(9.95, 89.55, 89.55) == 9.95;
    assert Scale(0.0, 89.55, 89.55) == 0.0;
    assert (99.5 + 0.5).Floor == 100 && (104.5 + 0.5).Floor == 105;
  }

  /** From ten nodes on, the rounding can pass the tolerance of the check: the weights of a sorted table
      with the worker last total 100.5 after it, and that rounds to 101. */
  lemma {:induction false} TenNodesCanFail(n: nat)
    requires 10 <= n
    ensures var nodes := Failing(n, n);
            && Shiftable(nodes, 0, 0.0) && nodes[n - 1].id == 0
            && TotalWeight(Rescaled(nodes, 0, 10.45, 89.55, 10.45), n) == 100.5
            && !Passes(nodes, 0, 0.0)
  {
    var nodes := Failing(n, n);
    FailingIsTable(n);
    FailingSums(n, n - 1);
    assert SideSum(nodes, 0, true, n) == 10.45 && SideSum(nodes, 0, false, n) == 89.55;
    var temp := Rescaled(nodes, 0, 10.45, 89.55, 10.45);
    FailingRescaled();
    FailingTotal(n, temp, n - 1);
    assert temp[n - 1].weight == 10.5;
    assert (100.5 + 0.5).Floor == 101;
  }

  /** All tables of n nodes pass the check if and only if n is at most nine. */
  lemma {:induction false} NeverFailsIff(n: nat)
    ensures NeverFails(n) <==> n <= 9
  {
    if n <= 9 {
      forall nodes: seq<Record>, id: int, s: real | |nodes| == n && Shiftable(nodes, id, s)
        ensures Passes(nodes, id, s)
      {
        CheckUnreachable(nodes, id, s);
      }
    } else {
      TenNodesCanFail(n);
      assert !Passes(Failing(n, n), 0, 0.0);
    }
  }

  // ----- the new order -----

  lemma {:induction false} ScaleMonotone(x: real, y: real, sum: real, share: real)
    requires 0.0 < sum && 0.0 <= share && x <= y
    ensures Scale(x, sum, share) <= Scale(y, sum, share)
  {
    Ratio(x, sum);
    Ratio(y, sum);
    var a, b := x / sum, y / sum;
    if a > b { Positive(a - b, sum); }
    Nonnegative(b - a, share);
  }

  lemma {:induction false} Ratio(x: real, sum: real)
    requires sum != 0.0
    ensures x / sum * sum == x
  {
  }

  lemma {:induction false} Positive(a: real, b: real)
    requires 0.0 < a && 0.0 < b
    ensures 0.0 < a * b
  {
  }

  lemma {:induction false} Nonnegative(a: real, b: real)
    requires 0.0 <= a && 0.0 <= b
    ensures 0.0 <= a * b
  {
  }

  /** Scaling to more than the sum raises a weight, to less lowers it. */
  lemma {:induction false} ScaleAgainst(x: real, sum: real, share: real)
    requires 0.0 < sum && 0.0 <= x
    ensures share >= sum ==> Scale(x, sum, share) >= x
    ensures share <= sum ==> Scale(x, sum, share) <= x
  {
    Ratio(x, sum);
    var a := x / sum;
    if a < 0.0 { Positive(-a, sum); }
    assert a * share - a * sum == a * (share - sum);
    if share >= sum {
      Nonnegative(a, share - sum);
    }
    if share <= sum {
      Nonnegative(a, sum - share);
      assert a * (sum - share) == -(a * (share - sum));
    }
  }

  lemma {:induction false} TenthsMonotone(x: real, y: real)
    requires x <= y
    ensures Tenths(x) <= Tenths(y)
  {
    RoundMonotone(x * 10.0, y * 10.0);
  }

  /** Shifting weight towards a worker at the end of the table keeps the table sorted, which the
      weighted placement relies on. */
  lemma {:induction false} RescaledStaysSorted(nodes: seq<Record>, id: int, sumWw: real, sumNww: real, s: real)
    requires Sorted(nodes) && 0 < |nodes| && nodes[|nodes| - 1].id == id
    requires forall i :: 0 <= i < |nodes| - 1 ==> nodes[i].id != id
    requires 0.0 < sumWw && 0.0 < sumNww && sumWw + sumNww == 100.0 && 0.0 <= s <= sumNww
    ensures Sorted(Rescaled(nodes, id, sumWw, sumNww, sumWw + s))
  {
    var newS := sumWw + s;
    var temp := Rescaled(nodes, id, sumWw, sumNww, newS);
    forall i | 0 <= i < |temp| ensures 0.0 <= Step(temp, i) {
      WeightAtLeastZero(nodes, i);
      var w, n := nodes[i].weight, RescaledWeight(nodes[i], id, sumWw, sumNww, newS);
      if i == 0 {
        var sum, share := if nodes[0].id == id then sumWw else sumNww, if nodes[0].id == id then newS else 100.0 - newS;
        ScaleMonotone(0.0, w, sum, share);
        ScaleWhole(sum, share);
        TenthsMonotone(0.0, n);
      } else {
        WeightAtLeastZero(nodes, i - 1);
        assert 0.0 <= Step(nodes, i);
        var w', n' := nodes[i - 1].weight, RescaledWeight(nodes[i - 1], id, sumWw, sumNww, newS);
        if nodes[i].id == id {
          ScaleAgainst(w, sumWw, newS);
          ScaleAgainst(w', sumNww, 100.0 - newS);
        } else {
          ScaleMonotone(w', w, sumNww, 100.0 - newS);
        }
        TenthsMonotone(n', n);
      }
    }
  }

  ghost predicate StaysSorted(nodes: seq<Record>, id: int, s: real)
    requires SideSum(nodes, id, true, |nodes|) != 0.0 && SideSum(nodes, id, false, |nodes|) != 0.0
  {
    var sumWw, sumNww := SideSum(nodes, id, true, |nodes|), SideSum(nodes, id, false, |nodes|);
    Sorted(Rescaled(nodes, id, sumWw, sumNww, sumWw + s))
  }

  /** The worker stands at position w only. */
  ghost predicate WorkerAt(nodes: seq<Record>, id: int, w: nat) {
    w < |nodes| && forall i :: 0 <= i < |nodes| ==> (nodes[i].id == id <==> i == w)
  }

  lemma {:induction false} WorkerSum(nodes: seq<Record>, id: int, w: nat, n: nat)
    requires WorkerAt(nodes, id, w) && n <= |nodes|
    ensures SideSum(nodes, id, true, n) == if w < n then nodes[w].weight else 0.0
  {
    if n > 0 { WorkerSum(nodes, id, w, n - 1); }
  }

  /** The full shift gives the worker everything and the node behind it nothing. */
  lemma {:induction false} FullShiftUnsorts(nodes: seq<Record>, id: int, w: nat)
    requires WorkerAt(nodes, id, w) && w + 1 < |nodes|
    requires SideSum(nodes, id, true, |nodes|) != 0.0 && SideSum(nodes, id, false, |nodes|) != 0.0
    ensures !StaysSorted(nodes, id, 100.0 - SideSum(nodes, id, true, |nodes|))
  {
    var sumWw, sumNww := SideSum(nodes, id, true, |nodes|), SideSum(nodes, id, false, |nodes|);
    WorkerSum(nodes, id, w, |nodes|);
    var temp := Rescaled(nodes, id, sumWw, sumNww, sumWw + (100.0 - sumWw));
    ScaleWhole(sumWw, 100.0);
    assert Scale(nodes[w + 1].weight, sumNww, 0.0) == 0.0;
    assert temp[w].weight == Tenths(100.0) == 100.0;
    assert temp[w + 1].weight == Tenths(0.0) == 0.0;
    assert Step(temp, w + 1) < 0.0;
  }

  /** The table stays sorted under every shift towards the worker if and only if the worker is last. */
  lemma {:induction false} StaysSortedIff(nodes: seq<Record>, id: int, w: nat)
    requires WorkerAt(nodes, id, w) && Shiftable(nodes, id, 0.0)
    ensures (forall s: real :: 0.0 <= s <= SideSum(nodes, id, false, |nodes|) ==> StaysSorted(nodes, id, s))
            <==> w == |nodes| - 1
  {
    var sumWw, sumNww := SideSum(nodes, id, true, |nodes|), SideSum(nodes, id, false, |nodes|);
    if w == |nodes| - 1 {
      forall s: real | 0.0 <= s <= sumNww ensures StaysSorted(nodes, id, s) {
        RescaledStaysSorted(nodes, id, sumWw, sumNww, s);
      }
    } else {
      FullShiftUnsorts(nodes, id, w);
    }
  }

  // ----- the shares after rescaling -----

  /** A sorted table with the worker last, and a shift towards it. */
  ghost predicate TowardsWorker(nodes: seq<Record>, id: int, s: real) {
    && Shiftable(nodes, id, s) && 0.0 <= s && 0 < |nodes| && nodes[|nodes| - 1].id == id
    && forall i :: 0 <= i < |nodes| - 1 ==> nodes[i].id != id
  }

  ghost function NewTable(nodes: seq<Record>, id: int, s: real): (temp: seq<Record>)
    requires TowardsWorker(nodes, id, s)
    ensures |temp| == |nodes| && Table(temp)
    ensures TotalWeight(temp, |nodes|) <= 100.0 + |nodes| as real / 20.0
    ensures forall i :: 0 <= i < |nodes| ==> temp[i] == Record(nodes[i].id, Tenths(NewWeight(nodes, id, s, i)))
  {
    var sumWw, sumNww := SideSum(nodes, id, true, |nodes|), SideSum(nodes, id, false, |nodes|);
    var temp := Rescaled(nodes, id, sumWw, sumNww, sumWw + s);
    RescaledStaysSorted(nodes, id, sumWw, sumNww, s);
    NewSumNearHundred(nodes, id, s);
    assert Ids(temp) == Ids(nodes);
    temp
  }

  /** The weight a node should have after the shift, before it is rounded. */
  ghost function NewWeight(nodes: seq<Record>, id: int, s: real, k: nat): real
    requires TowardsWorker(nodes, id, s) && k < |nodes|
  {
    var sumWw, sumNww := SideSum(nodes, id, true, |nodes|), SideSum(nodes, id, false, |nodes|);
    RescaledWeight(nodes[k], id, sumWw, sumNww, sumWw + s)
  }

  lemma {:induction false} NewTableExcess(nodes: seq<Record>, id: int, s: real, p: nat)
    requires TowardsWorker(nodes, id, s)
    ensures Excess(NewTable(nodes, id, s), p) <= Times(p, |nodes| as real / 2000.0)
  {
    var w := TotalWeight(NewTable(nodes, id, s), |nodes|);
    if w > 100.0 {
      TimesMonotone(p, |nodes| as real / 2000.0, (w - 100.0) / 100.0);
    } else {
      TimesMonotone(p, |nodes| as real / 2000.0, 0.0);
      TimesDistributes(p, 0.0, 0.0);
    }
  }

  /** Rounding a weight to tenths moves its share by at most a two-thousandth of the pages. */
  lemma {:induction false} TenthsShare(p: nat, x: real)
    ensures Times(p, x / 100.0) - Times(p, 1.0 / 2000.0) <= Times(p, Tenths(x) / 100.0)
         <= Times(p, x / 100.0) + Times(p, 1.0 / 2000.0)
  {
    TenthsClose(x);
    TimesDistributes(p, x / 100.0, 1.0 / 2000.0);
    TimesMonotone(p, Tenths(x) / 100.0, x / 100.0 - 1.0 / 2000.0);
    TimesMonotone(p, x / 100.0 + 1.0 / 2000.0, Tenths(x) / 100.0);
  }

  /** What the rounded table promises a node is close to what the shift gives it, excess included. */
  lemma {:induction false} NewShare(nodes: seq<Record>, id: int, s: real, p: nat, k: nat)
    requires TowardsWorker(nodes, id, s) && k < |nodes|
    ensures var temp, share := NewTable(nodes, id, s), Times(p, NewWeight(nodes, id, s, k) / 100.0);
            && Times(p, temp[k].weight / 100.0) <= share + Times(p, 1.0 / 2000.0)
            && share - Times(p, (|nodes| + 1) as real / 2000.0) <= Times(p, temp[k].weight / 100.0) - Excess(temp, p)
  {
    NewTableExcess(nodes, id, s, p);
    TenthsShare(p, NewWeight(nodes, id, s, k));
    TimesDistributes(p, |nodes| as real / 2000.0, 1.0 / 2000.0);
    assert (|nodes| + 1) as real / 2000.0 == |nodes| as real / 2000.0 + 1.0 / 2000.0;
  }

  /** The whole path of place_pages_weighted_s: although the rounded weights need not total 100, every
      node owns the share that the shift gives it, up to the pages of the rounds, a two-thousandth of the
      region above and N + 1 two-thousandths below. */
  lemma {:induction false} RescaledProportional(nodes: seq<Record>, id: int, s: real, base: nat, p: nat, g: nat,
                                                choice: Choice, k: nat)
    requires TowardsWorker(nodes, id, s) && 0 < g && k < |nodes|
    ensures Obeys(choice, RegionPlan(NewTable(nodes, id, s), base, p, g)) ==>
              var got := Owned(RegionPlan(NewTable(nodes, id, s), base, p, g), choice, g, nodes[k].id) as real;
              var share := Times(p, NewWeight(nodes, id, s, k) / 100.0);
              && got < share + (k + 1) as real + Times(p, 1.0 / 2000.0)
              && share - (2 * |nodes| - 1) as real - Times(p, (|nodes| + 1) as real / 2000.0) < got
  {
    if Obeys(choice, RegionPlan(NewTable(nodes, id, s), base, p, g)) {
      InterleavedProportional(NewTable(nodes, id, s), base, p, g, choice, k);
      NewShare(nodes, id, s, p, k);
    }
  }
}
