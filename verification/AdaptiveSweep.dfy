/** The adaptive hill climb over an arbitrary trace of stall rates. */
module AdaptiveSweep {
  import opened Dealing
  import opened Kernel
  import opened SplitPlacement

  const ADAPTATION_STEP: nat := 10

  /** The first percentage: the even share, rounded up to a multiple of five. */
  function Start(n: nat): nat
    requires 0 < n
  {
    (100 / n + 4) / 5 * 5
  }

  /** The percentages the loop would visit from `lp` on if it never stopped early. */
  function Visits(lp: nat): (v: seq<nat>)
    decreases 100 - lp
  {
    if lp > 100 then []
    else if lp % 10 == 0 && lp != 100 then Visits(lp + ADAPTATION_STEP)
    else [lp] + Visits(lp + ADAPTATION_STEP)
  }

  datatype Best = Infinity | Rate(value: real)

  /** The best of the first k rates. */
  ghost predicate BestOf(rates: nat -> real, k: nat, best: Best) {
    match best
    case Infinity => k == 0
    case Rate(v) => (exists b: nat :: b < k && rates(b) == v) && forall i: nat :: i < k ==> v <= rates(i)
  }

  /** Some visit up to k has the least rate so far, and both the sample and the doubled re-sample of visit k
      exceed it by a tenth of a percent. */
  ghost predicate BeatenAt(rates: nat -> real, again: nat -> real, k: nat) {
    exists b: nat :: Beats(rates, again, k, b)
  }

  ghost predicate Beats(rates: nat -> real, again: nat -> real, k: nat, b: nat) {
    && b <= k && (forall i: nat :: i <= k ==> rates(b) <= rates(i))
    && rates(k) > rates(b) * 1.001 && again(k) > rates(b) * 1.001
  }

  lemma {:induction false} BeatenIff(rates: nat -> real, again: nat -> real, k: nat, v: real)
    requires BestOf(rates, k + 1, Rate(v))
    ensures BeatenAt(rates, again, k) <==> rates(k) > v * 1.001 && again(k) > v * 1.001
  {
    var b: nat :| b <= k && rates(b) == v;
    if BeatenAt(rates, again, k) {
      var b': nat :| Beats(rates, again, k, b');
      assert v <= rates(b') <= rates(b);
    }
    if rates(k) > v * 1.001 && again(k) > v * 1.001 { assert Beats(rates, again, k, b); }
  }

  lemma {:induction false} BestNext(rates: nat -> real, k: nat, before: Best)
    requires BestOf(rates, k, before)
    ensures BestOf(rates, k + 1, if before.Infinity? || rates(k) < before.value then Rate(rates(k)) else before)
  {
    if before.Rate? { var b: nat :| b < k && rates(b) == before.value; }
  }

  /** One visit: the sample, the best so far, and whether it is time to stop. */
  method Measure(rates: nat -> real, again: nat -> real, k: nat, before: Best) returns (best: Best, stop: bool)
    requires BestOf(rates, k, before)
    ensures BestOf(rates, k + 1, best)
    ensures stop <==> BeatenAt(rates, again, k)
  {
    stop := false;
    var stallRate := rates(k);
    best := if before.Infinity? || stallRate < before.value then Rate(stallRate) else before;
    BestNext(rates, k, before);
    BeatenIff(rates, again, k, best.value);
    if stallRate > best.value * 1.001 {
      if again(k) > best.value * 1.001 {
        stop := true;
      }
    }
  }

  lemma {:induction false} VisitNext(visited: seq<nat>, lp: nat)
    requires lp <= 100 && !(lp % 10 == 0 && lp != 100)
    ensures visited + Visits(lp) == (visited + [lp]) + Visits(lp + ADAPTATION_STEP)
  {
    assert Visits(lp) == [lp] + Visits(lp + ADAPTATION_STEP);
  }

  /** adaptiveThread: `rates` and `again` are the samples and re-samples by number of visit. */
  method Adapt(n: nat, rates: nat -> real, again: nat -> real)
    returns (visited: seq<nat>, best: Best, stopped: bool)
    requires 0 < n
    ensures visited <= Visits(Start(n)) && visited != []
    ensures best.Rate? && BestOf(rates, |visited|, best)
    ensures stopped <==> BeatenAt(rates, again, |visited| - 1)
    ensures forall k :: 0 <= k < |visited| - 1 ==> !BeatenAt(rates, again, k)
    ensures !stopped ==> visited == Visits(Start(n))
  {
    var localPercentage := Start(n);
    visited, best, stopped := [], Infinity, false;
    VisitsNonEmpty(n);
    while localPercentage <= 100
      invariant visited + Visits(localPercentage) == Visits(Start(n))
      invariant BestOf(rates, |visited|, best)
      invariant forall k :: 0 <= k < |visited| ==> !BeatenAt(rates, again, k)
      invariant !stopped
      decreases 110 - localPercentage
    {
      if localPercentage % 10 == 0 && localPercentage != 100 {
        localPercentage := localPercentage + ADAPTATION_STEP;
        continue;
      }
      var k := |visited|;
      VisitNext(visited, localPercentage);
      visited := visited + [localPercentage];
      best, stopped := Measure(rates, again, k, best);
      if stopped {
        break;
      }
      localPercentage := localPercentage + ADAPTATION_STEP;
    }
    if !stopped {
      assert Visits(localPercentage) == [];
    }
  }

  // ----- what is visited -----

  lemma {:induction false} StartBounds(n: nat)
    requires 0 < n
    ensures Start(n) <= 100 && Start(n) % 5 == 0
    ensures 100 / n <= Start(n) < 100 / n + 5
  {
    assert 100 / n <= 100;
  }

  /** From a multiple of ten on, only 100 percent is visited. */
  lemma {:induction false} EvenVisits(lp: nat)
    requires lp % 10 == 0 && lp <= 100
    ensures Visits(lp) == [100]
    decreases 100 - lp
  {
    if lp < 100 { EvenVisits(lp + 10); }
  }

  /** From an odd multiple of five on, every odd multiple of five up to 95 is. */
  lemma {:induction false} OddVisits(lp: nat)
    requires lp % 10 == 5
    ensures |Visits(lp)| == if lp > 100 then 0 else (105 - lp) / 10
    ensures forall i :: 0 <= i < |Visits(lp)| ==> Visits(lp)[i] == lp + 10 * i && Visits(lp)[i] <= 95
    decreases 200 - lp
  {
    if lp <= 100 { OddVisits(lp + 10); }
  }

  lemma {:induction false} VisitsNonEmpty(n: nat)
    requires 0 < n
    ensures Visits(Start(n)) != []
  {
    VisitsShape(n);
  }

  /** The sweep visits only 100 percent, or a prefix of the odd multiples of five from the start. */
  lemma {:induction false} VisitsShape(n: nat)
    requires 0 < n
    ensures if Start(n) % 10 == 0 then Visits(Start(n)) == [100]
            else |Visits(Start(n))| == (105 - Start(n)) / 10
                 && forall i :: 0 <= i < |Visits(Start(n))| ==> Visits(Start(n))[i] == Start(n) + 10 * i
  {
    StartBounds(n);
    if Start(n) % 10 == 0 {
      EvenVisits(Start(n));
    } else {
      OddVisits(Start(n));
    }
  }

  // ----- why it stops -----

  /** When rates are not negative, a sweep only stops on a ratio that an earlier one beat. */
  lemma {:induction false} StopsAfterBest(rates: nat -> real, again: nat -> real, k: nat) returns (b: nat)
    requires forall i: nat :: 0.0 <= rates(i)
    requires BeatenAt(rates, again, k)
    ensures b < k && Beats(rates, again, k, b)
  {
    b :| Beats(rates, again, k, b);
    assert 0.0 <= rates(b);
  }

  // ----- the guards of the placement -----

  ghost predicate RatioAccepted(n: nat, percentage: nat) {
    1.0 <= Times(n, percentage as real / 100.0)
  }

  lemma {:induction false} AcceptedIffShare(n: nat, percentage: nat)
    ensures RatioAccepted(n, percentage) <==> n * percentage >= 100
  {
    TimesIsProduct(n, percentage as real / 100.0);
    assert n as real * (percentage as real / 100.0) == (n * percentage) as real / 100.0;
  }

  /** An even share in percent, rounded down: q of them fit into 100 and q + 1 do not. */
  lemma {:induction false} EvenShareBounds(n: nat)
    requires 0 < n
    ensures var q := 100 / n; n * q <= 100 < n * q + n
  {
  }

  lemma {:induction false} LeastVisited(n: nat, lp: nat)
    requires n * lp >= 100
    ensures forall p: nat :: lp <= p ==> n * p >= 100
  {
    forall p: nat | lp <= p ensures n * p >= 100 {
      assert n * (p - lp) >= 0;
      assert n * p == n * lp + n * (p - lp);
    }
  }

  /** The start percentage is an even share or more, except for 17, 18 and 19 nodes, where it is 5. */
  lemma {:induction false} StartIsEvenShare(n: nat)
    requires 2 <= n && Start(n) % 10 == 5
    ensures n * Start(n) >= 100 <==> !(17 <= n <= 19)
    ensures 17 <= n <= 19 ==> Start(n) == 5
  {
    var q := 100 / n;
    EvenShareBounds(n);
    StartBounds(n);
    if 17 <= n <= 19 { SmallShares(n, q); }
    if q % 5 == 0 {
      assert Start(n) == q;
      assert q <= 50 by { HalfAtMost(n, q); }
      assert q == 5 || q == 15 || q == 25 || q == 35 || q == 45;
    } else {
      LeastVisited(n, q + 1);
      assert n * (q + 1) == n * q + n;
    }
  }

  lemma {:induction false} HalfAtMost(n: nat, q: nat)
    requires 2 <= n && n * q <= 100
    ensures q <= 50
  {
    assert (n - 2) * q >= 0;
    assert n * q == 2 * q + (n - 2) * q;
  }

  lemma {:induction false} SmallShares(n: nat, q: nat)
    requires 17 <= n <= 19 && q == 100 / n
    ensures q == 5
  {
  }

  /** A sweep that starts at a multiple of ten only tries to bind everything. */
  lemma {:induction false} EvenGuards(n: nat)
    requires 2 <= n && Start(n) % 10 == 0
    ensures !(17 <= n <= 19) && Visits(Start(n)) == [100] && RatioAccepted(n, 100)
  {
    StartBounds(n);
    EvenVisits(Start(n));
    AcceptedIffShare(n, 100);
    if 17 <= n <= 19 { SmallShares(n, 100 / n); }
  }

  /** Any other sweep is accepted from its first visit on, or not at all. */
  lemma {:induction false} OddGuards(n: nat, i: nat)
    requires 2 <= n && Start(n) % 10 != 0 && i < |Visits(Start(n))|
    ensures !(17 <= n <= 19) ==> RatioAccepted(n, Visits(Start(n))[i])
    ensures 17 <= n <= 19 ==> !RatioAccepted(n, Visits(Start(n))[0])
  {
    StartBounds(n);
    VisitsShape(n);
    StartIsEvenShare(n);
    AcceptedIffShare(n, Start(n));
    AcceptedIffShare(n, Visits(Start(n))[i]);
    if !(17 <= n <= 19) { LeastVisited(n, Start(n)); }
  }

  /** Every visited ratio passes the guards of place_pages for every number of nodes except 17, 18 and
      19; there the very first ratio fails them. */
  lemma {:induction false} GuardsNeverFire(n: nat)
    requires 2 <= n
    ensures !(17 <= n <= 19) ==> forall i :: 0 <= i < |Visits(Start(n))| ==> RatioAccepted(n, Visits(Start(n))[i])
    ensures 17 <= n <= 19 ==> Visits(Start(n)) != [] && !RatioAccepted(n, Visits(Start(n))[0])
  {
    VisitsNonEmpty(n);
    if Start(n) % 10 == 0 {
      EvenGuards(n);
    } else {
      OddGuards(n, 0);
      forall i | 0 <= i < |Visits(Start(n))| && !(17 <= n <= 19) ensures RatioAccepted(n, Visits(Start(n))[i]) {
        OddGuards(n, i);
      }
    }
  }

  // ----- the whole sweep on a region -----

  function Ratios(visits: seq<nat>): (r: seq<real>)
    ensures |r| == |visits| && forall i :: 0 <= i < |visits| ==> r[i] == visits[i] as real / 100.0
  {
    if visits == [] then [] else Ratios(visits[..|visits| - 1]) + [visits[|visits| - 1] as real / 100.0]
  }

  lemma {:induction false} VisitsIncrease(n: nat)
    requires 0 < n
    ensures forall i, j :: 0 <= i < j < |Visits(Start(n))| ==> Visits(Start(n))[i] <= Visits(Start(n))[j]
    ensures forall i :: 0 <= i < |Visits(Start(n))| ==> Visits(Start(n))[i] <= 100
  {
    VisitsShape(n);
    StartBounds(n);
    if Start(n) % 10 != 0 { OddVisits(Start(n)); }
  }

  lemma {:induction false} SweepAccepted(n: nat, visited: seq<nat>)
    requires 2 <= n && !(17 <= n <= 19) && visited <= Visits(Start(n))
    ensures Accepted(n, Ratios(visited)) && Increasing(Ratios(visited))
  {
    var r := Ratios(visited);
    GuardsNeverFire(n);
    VisitsIncrease(n);
    forall i | 0 <= i < |r| ensures InRange(n, r[i]) {
      assert RatioAccepted(n, Visits(Start(n))[i]);
      RatiosValid(n, r[i]);
    }
  }

  /** The ratios of the visits so far, all of which the placement accepts. */
  ghost function SweepRatios(n: nat, visited: seq<nat>): (r: seq<real>)
    requires 2 <= n && !(17 <= n <= 19) && visited <= Visits(Start(n)) && visited != []
    ensures Accepted(n, r) && Increasing(r)
    ensures r != [] && r[|r| - 1] == visited[|visited| - 1] as real / 100.0
  {
    SweepAccepted(n, visited);
    Ratios(visited)
  }

  /** The calls of the visits so far, on a region of p pages. */
  ghost predicate SweepOf(p: nat, visited: seq<nat>, s: Sweep) {
    && 2 <= s.n && !(17 <= s.n <= 19) && visited <= Visits(Start(s.n)) && visited != []
    && s.ratios == SweepRatios(s.n, visited) && Runs(p, s)
    && 1 <= s.workers <= 4 && s.workers <= s.n && (s.workers == 3 ==> 4 <= s.n)
  }

  ghost function LastVisited(visited: seq<nat>): real
    requires visited != []
  {
    visited[|visited| - 1] as real / 100.0
  }

  lemma {:induction false} LastIsVisited(p: nat, visited: seq<nat>, s: Sweep)
    requires SweepOf(p, visited, s)
    ensures Increasing(s.ratios) && s.ratios != [] && LastRatio(p, s) == LastVisited(visited)
  {
  }

  /** After any number of visits of the sweep, on a region of p pages that started out interleaved over
      all nodes, the calls made so far leave the workers together with what the last ratio gives them,
      whatever the kernel chooses for each of them. */
  lemma {:induction false} AdaptiveSweepHoldsRatio(p: nat, t: Turn, visited: seq<nat>, s: Sweep)
    requires SweepOf(p, visited, s) && Serves(t, AllNodes(s.n))
    ensures WorkersHold(Executed(Deal(0, p, t), s), s.n, s.workers, LastVisited(visited))
  {
    LastIsVisited(p, visited, s);
    SweepCallsHoldRatio(p, t, s);
  }

  /** A single worker has its ratio of the region to within two pages. */
  lemma {:induction false} SingleWorkerHoldsRatio(p: nat, t: Turn, visited: seq<nat>, s: Sweep)
    requires SweepOf(p, visited, s) && Serves(t, AllNodes(s.n)) && s.workers == 1
    ensures var held, share := multiset(Executed(Deal(0, p, t), s))[0] as real, Times(p, LastVisited(visited));
            share - 1.0 < held < share + 2.0
  {
    AdaptiveSweepHoldsRatio(p, t, visited, s);
    OneWorkerHolds(Executed(Deal(0, p, t), s), s.n, LastVisited(visited));
  }
}
