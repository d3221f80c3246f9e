/** The array form of the weighted layout, as move_pages_initial builds it. */
module PageArray {
  import opened Rounding
  import opened Dealing
  import opened WeightedPlacement
  import opened InterleavedShares

  /** The pages a round asks for: the ideal, cut down to a whole number. */
  function RoundPages(a: nat, b: real, pageCount: nat): nat
    requires 0.0 <= b
  {
    RoundPagesRise(a, b, pageCount);
    Trunc(RoundReal(a, b, pageCount))
  }

  function RoundReal(a: nat, b: real, pageCount: nat): real {
    Times(pageCount, Times(a, b / 100.0))
  }

  lemma {:induction false} RoundPagesRise(a: nat, b: real, pageCount: nat)
    requires 0.0 <= b
    ensures 0.0 <= RoundReal(a, b, pageCount)
  {
    TimesMonotone(a, b / 100.0, 0.0);
    TimesDistributes(a, 0.0, 0.0);
    TimesMonotone(pageCount, Times(a, b / 100.0), 0.0);
    TimesDistributes(pageCount, 0.0, 0.0);
  }

  function PageRounds(nodes: seq<Record>, pageCount: nat): (want: seq<nat>)
    requires Sorted(nodes)
    ensures |want| == |nodes|
  {
    seq(|nodes|, i requires 0 <= i < |nodes| => RoundPages(|nodes| - i, Step(nodes, i), pageCount))
  }

  lemma {:induction false} RoundsSettled(want: seq<nat>, cap: nat, turns: seq<Turn>, i: nat, j: nat)
    requires i <= j <= |want| == |turns| && SomeoneServed(turns) && Cut(want, cap, i) == cap
    ensures Layout(want, cap, turns, j) == Layout(want, cap, turns, i)
  {
    if i < j {
      RoundsSettled(want, cap, turns, i, j - 1);
      SumMonotone(want, i, j - 1);
    }
  }

  /** The end of a round, computed from a real size that may be clamped, is the next cut. */
  lemma {:induction false} RoundEnd(want: seq<nat>, cap: nat, i: nat, x: real, ip: real)
    requires i < |want| && 0.0 <= x && want[i] == Trunc(x)
    requires ip == if x > (cap - Cut(want, cap, i)) as real then (cap - Cut(want, cap, i)) as real else x
    ensures Trunc(Cut(want, cap, i) as real + ip) == Cut(want, cap, i + 1)
    ensures ip == 0.0 ==> Cut(want, cap, i + 1) == Cut(want, cap, i)
  {
    TruncShift(Cut(want, cap, i), ip);
    if ip == x {
      TruncMonotone(x, (cap - Cut(want, cap, i)) as real);
      TruncUnique((cap - Cut(want, cap, i)) as real, cap - Cut(want, cap, i));
    } else {
      TruncUnique(ip, cap - Cut(want, cap, i));
      TruncMonotone(ip, x);
    }
  }

  function Padded(want: seq<nat>, cap: nat, turns: seq<Turn>, i: nat): (pages: seq<int>)
    requires i <= |want| == |turns| && SomeoneServed(turns)
    ensures |pages| == cap
  {
    Layout(want, cap, turns, i) + Zeros(cap - Cut(want, cap, i))
  }

  /** Dealing one more round over the padding. */
  lemma {:induction false} PaddedStep(want: seq<nat>, cap: nat, turns: seq<Turn>, i: nat, after: seq<int>)
    requires i < |want| == |turns| && SomeoneServed(turns) && |after| == cap
    requires Cut(want, cap, i) <= Cut(want, cap, i + 1)
    requires var lo, hi, before := Cut(want, cap, i), Cut(want, cap, i + 1), Padded(want, cap, turns, i);
             after[..lo] == before[..lo] && after[hi..] == before[hi..] && after[lo..hi] == Deal(lo, hi, turns[i])
    ensures after == Padded(want, cap, turns, i + 1)
  {
    var lo, hi, before := Cut(want, cap, i), Cut(want, cap, i + 1), Padded(want, cap, turns, i);
    assert before[..lo] == Layout(want, cap, turns, i);
    assert before[hi..] == Zeros(cap - hi);
    assert after == after[..lo] + after[lo..hi] + after[hi..];
  }

  lemma {:induction false} PaddedSame(want: seq<nat>, cap: nat, turns: seq<Turn>, i: nat)
    requires i < |want| == |turns| && SomeoneServed(turns)
    requires Cut(want, cap, i) == Cut(want, cap, i + 1)
    ensures Padded(want, cap, turns, i + 1) == Padded(want, cap, turns, i)
  {
  }

  /** Where round i begins, and the array before it. */
  function PagesReached(nodes: seq<Record>, p: nat, i: nat): nat
    requires Sorted(nodes) && i <= |nodes|
  {
    Cut(PageRounds(nodes, p), p, i)
  }

  function Filled(nodes: seq<Record>, p: nat, i: nat): (pages: seq<int>)
    requires Sorted(nodes) && i <= |nodes|
    ensures |pages| == p
  {
    Padded(PageRounds(nodes, p), p, SuffixTurns(Ids(nodes)), i)
  }

  lemma {:induction false} FilledStep(nodes: seq<Record>, p: nat, i: nat, after: seq<int>)
    requires Sorted(nodes) && i < |nodes| && |after| == p
    requires PagesReached(nodes, p, i) <= PagesReached(nodes, p, i + 1)
    requires var lo, hi, before := PagesReached(nodes, p, i), PagesReached(nodes, p, i + 1), Filled(nodes, p, i);
             && after[..lo] == before[..lo] && after[hi..] == before[hi..]
             && after[lo..hi] == Deal(lo, hi, Turn(Ids(nodes)[i..], 0))
    ensures after == Filled(nodes, p, i + 1)
  {
    PaddedStep(PageRounds(nodes, p), p, SuffixTurns(Ids(nodes)), i, after);
  }

  /** A round that deals nothing. */
  lemma {:induction false} FilledSame(nodes: seq<Record>, p: nat, i: nat)
    requires Sorted(nodes) && i < |nodes| && PagesReached(nodes, p, i) == PagesReached(nodes, p, i + 1)
    ensures Filled(nodes, p, i + 1) == Filled(nodes, p, i)
  {
    PaddedSame(PageRounds(nodes, p), p, SuffixTurns(Ids(nodes)), i);
  }

  lemma {:induction false} FilledSettled(nodes: seq<Record>, p: nat, i: nat)
    requires Sorted(nodes) && i <= |nodes| && PagesReached(nodes, p, i) == p
    ensures Filled(nodes, p, |nodes|) == Filled(nodes, p, i)
  {
    RoundsSettled(PageRounds(nodes, p), p, SuffixTurns(Ids(nodes)), i, |nodes|);
    SumMonotone(PageRounds(nodes, p), i, |nodes|);
  }

  /** Where a round ends, from its real size that may be clamped. */
  lemma {:induction false} ReachedStep(nodes: seq<Record>, p: nat, i: nat, x: real, ip: real)
    requires Sorted(nodes) && i < |nodes| && x == RoundReal(|nodes| - i, Step(nodes, i), p)
    requires PagesReached(nodes, p, i) <= p
    requires var rest := (p - PagesReached(nodes, p, i)) as real; ip == if x > rest then rest else x
    ensures 0.0 <= ip && Trunc(PagesReached(nodes, p, i) as real + ip) == PagesReached(nodes, p, i + 1)
    ensures PagesReached(nodes, p, i) <= PagesReached(nodes, p, i + 1) <= p
    ensures ip == 0.0 ==> PagesReached(nodes, p, i + 1) == PagesReached(nodes, p, i)
  {
    assert 0.0 <= Step(nodes, i);
    RoundPagesRise(|nodes| - i, Step(nodes, i), p);
    SumMonotone(PageRounds(nodes, p), i, i + 1);
    RoundEnd(PageRounds(nodes, p), p, i, x, ip);
  }

  /** The inner loop: pages from `lo` to `hi` go to the listed nodes by page number. */
  method DealRound(placed: array<int>, lo: nat, hi: nat, a: nat, nodeIds: seq<int>)
    requires lo <= hi <= placed.Length && 0 < a == |nodeIds|
    modifies placed
    ensures placed[..lo] == old(placed[..lo]) && placed[hi..] == old(placed[hi..])
    ensures placed[lo..hi] == Deal(lo, hi, Turn(nodeIds, 0))
  {
    for j := lo to hi
      invariant placed[..lo] == old(placed[..lo]) && placed[j..] == old(placed[j..])
      invariant forall k :: lo <= k < j ==> placed[k] == nodeIds[k % a]
    {
      var myNode := j % a;
      placed[j] := nodeIds[myNode];
    }
  }

  /** The inner loop as one round of the whole. */
  method DealPages(placed: array<int>, lo: nat, hi: nat, a: nat, nodeIds: seq<int>, ghost nodes: seq<Record>,
                   ghost i: nat)
    requires Sorted(nodes) && i < |nodes| && a == |nodes| - i && nodeIds == Ids(nodes)[i..]
    requires lo == PagesReached(nodes, placed.Length, i) <= hi == PagesReached(nodes, placed.Length, i + 1) <= placed.Length
    requires placed[..] == Filled(nodes, placed.Length, i)
    modifies placed
    ensures placed[..] == Filled(nodes, placed.Length, i + 1)
  {
    ghost var before := placed[..];
    DealRound(placed, lo, hi, a, nodeIds);
    ghost var after := placed[..];
    assert after[..lo] == before[..lo] && after[hi..] == before[hi..] && after[lo..hi] == placed[lo..hi];
    FilledStep(nodes, placed.Length, i, after);
  }

  /** One round: its size in pages, clamped to what is left, and its pages. */
  method NextRound(placed: array<int>, ik: nat, a: nat, b: real, nodeIds: seq<int>, ghost nodes: seq<Record>,
                   ghost i: nat)
      returns (next: nat)
    requires Sorted(nodes) && i < |nodes| && a == |nodes| - i && b == Step(nodes, i) && nodeIds == Ids(nodes)[i..]
    requires ik == PagesReached(nodes, placed.Length, i) <= placed.Length
    requires placed[..] == Filled(nodes, placed.Length, i)
    modifies placed
    ensures next == PagesReached(nodes, placed.Length, i + 1) <= placed.Length
    ensures placed[..] == Filled(nodes, placed.Length, i + 1)
  {
    var pageCount := placed.Length;
    var ip := RoundReal(a, b, pageCount);
    var rPages := pageCount - ik;
    ghost var x := ip;
    if ip > rPages as real {
      ip := rPages as real;
    }
    ReachedStep(nodes, pageCount, i, x, ip);
    if ip != 0.0 {
      var upperBound := Trunc(ik as real + ip);
      DealPages(placed, ik, upperBound, a, nodeIds, nodes, i);
    } else {
      FilledSame(nodes, pageCount, i);
    }
    next := Trunc(ik as real + ip);
  }

  lemma {:induction false} NextSuffix(ids: seq<int>, i: nat)
    requires i < |ids|
    ensures ids[i..][1..] == ids[i + 1..]
  {
  }

  /** The two loops of move_pages_initial: the node of each page.  The source computes the size of a round
      before it checks for the end, which makes no difference. */
  method MovePagesInitial(nodes: seq<Record>, pageCount: nat) returns (placed: array<int>)
    requires Sorted(nodes)
    ensures placed.Length == pageCount
    ensures var want, turns := PageRounds(nodes, pageCount), SuffixTurns(Ids(nodes));
            placed[..] == Padded(want, pageCount, turns, |nodes|)
  {
    placed := new int[pageCount](_ => 0);
    assert placed[..] == Zeros(pageCount);
    var w := 0.0;
    var a := |nodes|;
    var ik := 0;
    var nodeIds := Ids(nodes);
    var i := 0;
    while i < |nodes|
      invariant 0 <= i <= |nodes| && a == |nodes| - i && w == PreviousWeight(nodes, i)
      invariant nodeIds == Ids(nodes)[i..]
      invariant ik == PagesReached(nodes, pageCount, i) <= pageCount
      invariant placed[..] == Filled(nodes, pageCount, i)
    {
      if ik == pageCount {
        FilledSettled(nodes, pageCount, i);
        break;
      }
      var b := nodes[i].weight - w;
      ik := NextRound(placed, ik, a, b, nodeIds, nodes, i);
      NextSuffix(Ids(nodes), i);
      nodeIds := nodeIds[1..];
      a := a - 1;
      w := nodes[i].weight;
      i := i + 1;
    }
  }

  /** Page j of round i goes to the node at position j modulo the number of nodes in play, counted from the
      first of them; behind the last round everything is on node 0. */
  lemma {:induction false} ArrayOwner(nodes: seq<Record>, p: nat, j: nat, i: nat)
    requires Sorted(nodes) && j < p && i <= |nodes| && PagesReached(nodes, p, i) <= j
    requires i < |nodes| ==> j < PagesReached(nodes, p, i + 1)
    ensures var placed := Padded(PageRounds(nodes, p), p, SuffixTurns(Ids(nodes)), |nodes|);
            placed[j] == if i < |nodes| then nodes[i + j % (|nodes| - i)].id else 0
  {
    if i < |nodes| {
      LayoutAt(PageRounds(nodes, p), p, SuffixTurns(Ids(nodes)), i, |nodes|, j);
      SuffixAt(Ids(nodes), i, j);
    }
  }

  lemma {:induction false} SuffixAt(ids: seq<int>, i: nat, j: nat)
    requires i < |ids|
    ensures ids[i..][j % |ids[i..]|] == ids[i + j % (|ids| - i)]
  {
  }

  // ----- what the array achieves -----

  lemma {:induction false} RoundsBelowIdeal(nodes: seq<Record>, p: nat, i: nat)
    requires Sorted(nodes) && i < |nodes|
    ensures Ideal(Shares(nodes, p), i) - 1.0 < PageRounds(nodes, p)[i] as real <= Ideal(Shares(nodes, p), i)
  {
    assert 0.0 <= Step(nodes, i);
    RoundPagesRise(|nodes| - i, Step(nodes, i), p);
    RoundSizeIsIdeal(nodes, i, p);
    assert RoundSize(nodes, i, p) == RoundReal(|nodes| - i, Step(nodes, i), p);
  }

  lemma {:induction false} RoundsFit(nodes: seq<Record>, p: nat)
    requires Sorted(nodes)
    ensures WithinAPage(PageRounds(nodes, p), Shares(nodes, p))
  {
    var want, y := PageRounds(nodes, p), Shares(nodes, p);
    forall i | 0 <= i < |y| ensures RoundWithinAPage(want, y, i) {
      RoundsBelowIdeal(nodes, p, i);
    }
  }

  lemma {:induction false} SumBelowDealt(nodes: seq<Record>, p: nat, i: nat)
    requires Sorted(nodes) && i <= |nodes|
    ensures Sum(PageRounds(nodes, p), i) as real <= Dealt(Shares(nodes, p), i)
  {
    var y := Shares(nodes, p);
    if i > 0 {
      SumBelowDealt(nodes, p, i - 1);
      RoundsBelowIdeal(nodes, p, i - 1);
      DealtStep(y, i - 1);
    } else {
      TimesDistributes(|y|, 0.0, 0.0);
    }
  }

  lemma {:induction false} RoundsNeverExceed(nodes: seq<Record>, p: nat, i: nat)
    requires Sorted(nodes) && i <= |nodes| && TotalWeight(nodes, |nodes|) <= 100.0
    ensures Sum(PageRounds(nodes, p), i) <= p
  {
    SumMonotone(PageRounds(nodes, p), i, |nodes|);
    SumBelowDealt(nodes, p, |nodes|);
    SharesFit(nodes, p);
    assert Excess(nodes, p) == 0.0;
  }

  /** The clamp never bites: every round gets what it wants, from where the last one stopped, and at
      most N - 1 pages at the end are left with the default node. */
  lemma {:induction false} ClampNeverBites(nodes: seq<Record>, p: nat, i: nat)
    requires Sorted(nodes) && i < |nodes| && TotalWeight(nodes, |nodes|) <= 100.0
    ensures var want := PageRounds(nodes, p);
            && Chunk(want, p, i) == want[i] && Cut(want, p, i) == Sum(want, i)
            && (TotalWeight(nodes, |nodes|) == 100.0 ==> p - Sum(want, |want|) <= |nodes| - 1)
  {
    RoundsNeverExceed(nodes, p, i);
    RoundsNeverExceed(nodes, p, i + 1);
    RoundsNeverExceed(nodes, p, |nodes|);
    ShortTail(nodes, p);
  }

  /** The pages that weights of less than 100 in total leave over. */
  function Missing(nodes: seq<Record>, p: nat): real {
    var w := TotalWeight(nodes, |nodes|);
    if w < 100.0 then Times(p, (100.0 - w) / 100.0) else 0.0
  }

  function Tail(nodes: seq<Record>, p: nat): nat
    requires Sorted(nodes)
  {
    p - Cut(PageRounds(nodes, p), p, |nodes|)
  }

  /** What no round deals is what the weights leave over and less than a page per node. */
  lemma {:induction false} ShortTail(nodes: seq<Record>, p: nat)
    requires Sorted(nodes) && 0 < |nodes|
    ensures Tail(nodes, p) as real < Missing(nodes, p) + |nodes| as real
    ensures TotalWeight(nodes, |nodes|) >= 100.0 ==> Tail(nodes, p) <= |nodes| - 1
  {
    var w := TotalWeight(nodes, |nodes|);
    RoundsFit(nodes, p);
    SumWithinRounds(PageRounds(nodes, p), Shares(nodes, p), |nodes|);
    SharesTotal(nodes, p, |nodes|);
    FullShare(p, w);
    TimesOne(p);
    TimesDistributes(p, 1.0, w / 100.0);
    TimesDistributes(p, 0.0, 0.0);
    assert (100.0 - w) / 100.0 == 1.0 - w / 100.0;
    if w < 100.0 { TimesMonotone(p, (100.0 - w) / 100.0, 0.0); }
  }

  lemma {:induction false} SuffixTurnsOver(ids: seq<int>)
    requires Distinct(ids)
    ensures TurnsOver(SuffixTurns(ids), ids)
  {
    var turns := SuffixTurns(ids);
    forall i | 0 <= i < |ids| ensures TurnOver(turns[i], ids[i..]) {
      DistinctSuffix(ids, i);
    }
  }

  lemma {:induction false} ArrayShare(nodes: seq<Record>, p: nat, turns: seq<Turn>, k: nat)
    requires Sorted(nodes) && Distinct(Ids(nodes)) && k < |nodes|
    requires TurnsOver(turns, Ids(nodes)) && SomeoneServed(turns)
    ensures ShareHeld(nodes, p, k, Pages(PageRounds(nodes, p), p, turns, |nodes|, nodes[k].id) as real, 0.0)
  {
    RoundsFit(nodes, p);
    SharesAscend(nodes, p);
    SharesFit(nodes, p);
    Proportional(PageRounds(nodes, p), Shares(nodes, p), p, Excess(nodes, p), turns, Ids(nodes), k);
    if TotalWeight(nodes, |nodes|) <= 100.0 { RoundsNeverExceed(nodes, p, k + 1); }
    ShareIs(nodes, p, k);
  }

  lemma {:induction false} ShareIs(nodes: seq<Record>, p: nat, k: nat)
    requires k < |nodes|
    ensures Shares(nodes, p)[k] == Times(p, nodes[k].weight / 100.0)
  {
  }

  /** Fewer than k + 1 pages above the share and what else may have come on top; fewer than k + 1 below,
      or 2N - 1 and the excess when the weights total more than 100. */
  ghost predicate ShareHeld(nodes: seq<Record>, p: nat, k: nat, got: real, onTop: real)
    requires k < |nodes|
  {
    var share := Times(p, nodes[k].weight / 100.0);
    && got < share + (k + 1) as real + onTop
    && share - (2 * |nodes| - 1) as real - Excess(nodes, p) < got
    && (TotalWeight(nodes, |nodes|) <= 100.0 ==> share - (k + 1) as real < got)
  }

  /** Node k of the sorted table is dealt its percentage of the pages. */
  lemma {:induction false} ArrayProportional(nodes: seq<Record>, p: nat, k: nat)
    requires Sorted(nodes) && Distinct(Ids(nodes)) && k < |nodes|
    ensures var want, turns := PageRounds(nodes, p), SuffixTurns(Ids(nodes));
            ShareHeld(nodes, p, k, multiset(Layout(want, p, turns, |nodes|))[nodes[k].id] as real, 0.0)
  {
    SuffixTurnsOver(Ids(nodes));
    ArrayShare(nodes, p, SuffixTurns(Ids(nodes)), k);
  }

  lemma {:induction false} ZerosCount(n: nat, m: int)
    ensures multiset(Zeros(n))[m] == if m == 0 then n else 0
  {
    var z := Zeros(n);
    if n > 0 {
      ZerosCount(n - 1, m);
      assert z == Zeros(n - 1) + [0];
    }
  }

  /** What the array holds in the end: the dealt share of every node, and for the default node 0 the
      undealt tail as well, which is at most N - 1 pages for weights of 100 or more. */
  lemma {:induction false} FinalShares(nodes: seq<Record>, p: nat, k: nat)
    requires Sorted(nodes) && Distinct(Ids(nodes)) && k < |nodes|
    ensures var placed := Padded(PageRounds(nodes, p), p, SuffixTurns(Ids(nodes)), |nodes|);
            ShareHeld(nodes, p, k, multiset(placed)[nodes[k].id] as real,
                      if nodes[k].id == 0 then Tail(nodes, p) as real else 0.0)
    ensures Tail(nodes, p) as real < Missing(nodes, p) + |nodes| as real
    ensures TotalWeight(nodes, |nodes|) >= 100.0 ==> Tail(nodes, p) <= |nodes| - 1
  {
    ArrayProportional(nodes, p, k);
    ShortTail(nodes, p);
    ZerosCount(Tail(nodes, p), nodes[k].id);
  }
}
