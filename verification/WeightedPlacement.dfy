/** Weighted page placement: the interleaved layout, as mbind calls and as an array for move_pages,
    and the contiguous layout. */
module WeightedPlacement {
  import opened Rounding
  import opened Dealing
  import opened Kernel
  import Alignment

  /** A node and the percentage of the pages it should hold. */
  datatype Record = Record(id: int, weight: real)

  function Ids(nodes: seq<Record>): (ids: seq<int>)
    ensures |ids| == |nodes| && forall i :: 0 <= i < |nodes| ==> ids[i] == nodes[i].id
  {
    seq(|nodes|, i requires 0 <= i < |nodes| => nodes[i].id)
  }

  function TotalWeight(nodes: seq<Record>, n: nat): real
    requires n <= |nodes|
  {
    if n == 0 then 0.0 else TotalWeight(nodes, n - 1) + nodes[n - 1].weight
  }

  function PreviousWeight(nodes: seq<Record>, i: nat): real
    requires i <= |nodes|
  {
    if i == 0 then 0.0 else nodes[i - 1].weight
  }

  /** How far a weight rises above the one before it. */
  function Step(nodes: seq<Record>, i: nat): real
    requires i < |nodes|
  {
    nodes[i].weight - PreviousWeight(nodes, i)
  }

  /** The weight table as it is read: sorted by weight, no weight negative. */
  ghost predicate Sorted(nodes: seq<Record>) {
    forall i :: 0 <= i < |nodes| ==> 0.0 <= Step(nodes, i)
  }

  /** One record for each node. */
  ghost predicate OneEach(ids: seq<int>) {
    Distinct(ids) && forall n :: n in ids ==> 0 <= n < |ids|
  }

  ghost predicate Table(nodes: seq<Record>) {
    Sorted(nodes) && OneEach(Ids(nodes))
  }

  lemma {:induction false} WeightsAscend(nodes: seq<Record>, i: nat, j: nat)
    requires Sorted(nodes) && i <= j <= |nodes|
    ensures 0.0 <= PreviousWeight(nodes, i) <= PreviousWeight(nodes, j)
  {
    if i < j {
      WeightsAscend(nodes, i, j - 1);
      assert 0.0 <= Step(nodes, j - 1);
    } else if 0 < i {
      WeightsAscend(nodes, i - 1, i - 1);
      assert 0.0 <= Step(nodes, i - 1);
    }
  }

  /** The ideal share of each node in a region of `size` units. */
  function Shares(nodes: seq<Record>, size: nat): (y: seq<real>)
    ensures |y| == |nodes|
  {
    seq(|nodes|, i requires 0 <= i < |nodes| => Times(size, nodes[i].weight / 100.0))
  }

  /** The size of round i before any rounding, as the source writes it. */
  function RoundSize(nodes: seq<Record>, i: nat, size: nat): real
    requires i < |nodes|
  {
    Times(size, Times(|nodes| - i, Step(nodes, i) / 100.0))
  }

  lemma {:induction false} SharesAscend(nodes: seq<Record>, size: nat)
    requires Sorted(nodes)
    ensures Ascending(Shares(nodes, size))
  {
    var y := Shares(nodes, size);
    forall i | 0 <= i < |y| ensures 0.0 <= y[i] {
      WeightsAscend(nodes, i + 1, i + 1);
      TimesMonotone(size, nodes[i].weight / 100.0, 0.0);
      TimesDistributes(size, 0.0, 0.0);
    }
    forall i, j | 0 <= i <= j < |y| ensures y[i] <= y[j] {
      WeightsAscend(nodes, i + 1, j + 1);
      TimesMonotone(size, nodes[j].weight / 100.0, nodes[i].weight / 100.0);
    }
  }

  /** Scaling one weight difference to a region. */
  lemma {:induction false} RoundSizeIsIdeal(nodes: seq<Record>, i: nat, size: nat)
    requires i < |nodes|
    ensures RoundSize(nodes, i, size) == Ideal(Shares(nodes, size), i)
  {
    var w, l := nodes[i].weight / 100.0, PreviousWeight(nodes, i) / 100.0;
    TimesCommutes(size, |nodes| - i, w - l);
    TimesDistributes(size, w, l);
    assert Step(nodes, i) / 100.0 == w - l;
    assert Rise(Shares(nodes, size), i) == Times(size, w - l);
  }

  lemma {:induction false} SharesTotal(nodes: seq<Record>, size: nat, n: nat)
    requires n <= |nodes|
    ensures RealSum(Shares(nodes, size), n) == Times(size, TotalWeight(nodes, n) / 100.0)
  {
    TimesDistributes(size, 0.0, 0.0);
    if n > 0 {
      SharesTotal(nodes, size, n - 1);
      TimesDistributes(size, TotalWeight(nodes, n - 1) / 100.0, nodes[n - 1].weight / 100.0);
    }
  }

  // ----- interleaved, as mbind calls -----

  /** The chunk size as the source computes it: `a` nodes, `b` percent each, truncated to bytes and
      rounded up to whole pages. */
  function ChunkBytes(a: nat, b: real, size: nat, g: nat): nat
    requires 0.0 <= b && 0 < g
  {
    TimesMonotone(a, b / 100.0, 0.0);
    TimesDistributes(a, 0.0, 0.0);
    TimesMonotone(size, Times(a, b / 100.0), 0.0);
    TimesDistributes(size, 0.0, 0.0);
    Alignment.AlignUp(Trunc(Times(size, Times(a, b / 100.0))), g)
  }

  /** What each round asks for. */
  function Wants(nodes: seq<Record>, size: nat, g: nat): (want: seq<nat>)
    requires Sorted(nodes) && 0 < g
    ensures |want| == |nodes|
  {
    WantsBelow(nodes, size, g, |nodes|)
  }

  function WantsBelow(nodes: seq<Record>, size: nat, g: nat, n: nat): (want: seq<nat>)
    requires Sorted(nodes) && 0 < g && n <= |nodes|
    ensures |want| == n
    ensures forall i :: 0 <= i < n ==> want[i] == ChunkBytes(|nodes| - i, Step(nodes, i), size, g)
  {
    if n == 0 then [] else WantsBelow(nodes, size, g, n - 1) + [ChunkBytes(|nodes| - (n - 1), Step(nodes, n - 1), size, g)]
  }

  /** The call of round i, if it has one: its range is set by the cuts alone. */
  function RoundCall(want: seq<nat>, size: nat, addr: nat, policy: Policy, served: seq<set<int>>, i: nat): seq<Mbind>
    requires i < |want| == |served|
  {
    if Chunk(want, size, i) == 0 then []
    else [Mbind(addr + Cut(want, size, i), Chunk(want, size, i), policy, served[i])]
  }

  /** The nodes still in play in round i: all but the first i of the table. */
  function InPlay(ids: seq<int>, i: nat): set<int>
    requires i <= |ids|
  {
    if i == 0 then AllNodes(|ids|) else InPlay(ids, i - 1) - {ids[i - 1]}
  }

  function InPlaySets(ids: seq<int>): (served: seq<set<int>>)
    ensures |served| == |ids|
  {
    InPlayBelow(ids, |ids|)
  }

  function InPlayBelow(ids: seq<int>, n: nat): (served: seq<set<int>>)
    requires n <= |ids|
    ensures |served| == n
    ensures forall i :: 0 <= i < n ==> served[i] == InPlay(ids, i)
  {
    if n == 0 then [] else InPlayBelow(ids, n - 1) + [InPlay(ids, n - 1)]
  }

  /** The calls of the first i rounds, given the nodes each one serves. */
  function Plan(want: seq<nat>, size: nat, addr: nat, policy: Policy, served: seq<set<int>>, i: nat): seq<Mbind>
    requires i <= |served| == |want|
  {
    if i == 0 then []
    else Plan(want, size, addr, policy, served, i - 1) + RoundCall(want, size, addr, policy, served, i - 1)
  }

  lemma {:induction false} PlanSettled(want: seq<nat>, size: nat, addr: nat, policy: Policy,
                                       served: seq<set<int>>, i: nat, j: nat)
    requires i <= j <= |served| == |want| && Cut(want, size, i) == size
    ensures Plan(want, size, addr, policy, served, i) == Plan(want, size, addr, policy, served, j)
  {
    if i < j {
      PlanSettled(want, size, addr, policy, served, i, j - 1);
      SumMonotone(want, i, j - 1);
    }
  }

  lemma {:induction false} PlanPolicy(want: seq<nat>, size: nat, addr: nat, policy: Policy, served: seq<set<int>>, i: nat)
    requires i <= |served| == |want|
    ensures forall c :: c in Plan(want, size, addr, policy, served, i) ==> c.policy == policy && c.nodes in served
  {
    if i > 0 { PlanPolicy(want, size, addr, policy, served, i - 1); }
  }

  /** Clearing the bit of a node that is not set changes nothing. */
  lemma {:induction false} InPlayStep(ids: seq<int>, i: nat)
    requires i < |ids|
    ensures InPlay(ids, i + 1) == if ids[i] in InPlay(ids, i) then InPlay(ids, i) - {ids[i]} else InPlay(ids, i)
  {
  }

  /** One round extends the plan by one call, or by none. */
  lemma {:induction false} PlanStep(want: seq<nat>, size: nat, addr: nat, policy: Policy, served: seq<set<int>>,
                                    i: nat, taken: nat)
    requires i < |served| == |want| && taken == Min(want[i], size - Cut(want, size, i))
    ensures Cut(want, size, i + 1) == Cut(want, size, i) + taken
    ensures Plan(want, size, addr, policy, served, i + 1)
         == if taken == 0 then Plan(want, size, addr, policy, served, i)
            else Plan(want, size, addr, policy, served, i)
                 + [Mbind(addr + Cut(want, size, i), taken, policy, served[i])]
  {
    CutStep(want, size, i);
  }

  /** Where round i of the weighted placement begins, and the calls before it. */
  function Reached(nodes: seq<Record>, len: nat, g: nat, i: nat): nat
    requires Sorted(nodes) && 0 < g && i <= |nodes|
  {
    Cut(Wants(nodes, len, g), len, i)
  }

  function WeightedCalls(nodes: seq<Record>, addr: nat, len: nat, g: nat, i: nat): seq<Mbind>
    requires Sorted(nodes) && 0 < g && i <= |nodes|
  {
    Plan(Wants(nodes, len, g), len, addr, Interleave, InPlaySets(Ids(nodes)), i)
  }

  lemma {:induction false} WeightedStep(nodes: seq<Record>, addr: nat, len: nat, g: nat, i: nat, taken: nat)
    requires Sorted(nodes) && 0 < g && i < |nodes| && Reached(nodes, len, g, i) <= len
    requires taken == Min(ChunkBytes(|nodes| - i, Step(nodes, i), len, g), len - Reached(nodes, len, g, i))
    ensures Reached(nodes, len, g, i + 1) == Reached(nodes, len, g, i) + taken
    ensures WeightedCalls(nodes, addr, len, g, i + 1)
         == if taken == 0 then WeightedCalls(nodes, addr, len, g, i)
            else WeightedCalls(nodes, addr, len, g, i)
                 + [Mbind(addr + Reached(nodes, len, g, i), taken, Interleave, InPlay(Ids(nodes), i))]
  {
    PlanStep(Wants(nodes, len, g), len, addr, Interleave, InPlaySets(Ids(nodes)), i, taken);
  }

  lemma {:induction false} WeightedSettled(nodes: seq<Record>, addr: nat, len: nat, g: nat, i: nat)
    requires Sorted(nodes) && 0 < g && i <= |nodes| && Reached(nodes, len, g, i) == len
    ensures WeightedCalls(nodes, addr, len, g, i) == WeightedCalls(nodes, addr, len, g, |nodes|)
  {
    PlanSettled(Wants(nodes, len, g), len, addr, Interleave, InPlaySets(Ids(nodes)), i, |nodes|);
  }

  /** The loop of place_pages_weighted and place_pages_weighted_initial, which differ only in the
      table they read. */
  method PlacePagesWeighted(nodes: seq<Record>, addr: nat, len: nat, g: nat) returns (calls: seq<Mbind>)
    requires Sorted(nodes) && 0 < g
    ensures calls == Plan(Wants(nodes, len, g), len, addr, Interleave, InPlaySets(Ids(nodes)), |nodes|)
    ensures forall c :: c in calls ==> c.policy == Interleave
  {
    var size, start := len, addr;
    var nodeSet := AllNodes(|nodes|);
    var w := 0.0;
    var a := |nodes|;
    var totalSize := 0;
    calls := [];
    var i := 0;
    while i < |nodes|
      invariant 0 <= i <= |nodes| && a == |nodes| - i
      invariant w == PreviousWeight(nodes, i)
      invariant totalSize == Reached(nodes, len, g, i) <= len && start == addr + totalSize
      invariant nodeSet == InPlay(Ids(nodes), i)
      invariant calls == WeightedCalls(nodes, addr, len, g, i)
    {
      if totalSize == size {
        WeightedSettled(nodes, addr, len, g, i);
        break;
      }
      var b := nodes[i].weight - w;
      assert b == Step(nodes, i);
      var mySize := ChunkBytes(a, b, size, g);
      var remaining := size - totalSize;
      if mySize > remaining {
        mySize := remaining;
      }
      WeightedStep(nodes, addr, len, g, i, mySize);
      totalSize := totalSize + mySize;
      if mySize != 0 {
        calls := calls + [Mbind(start, mySize, Interleave, nodeSet)];
      }
      start := start + mySize;
      a := a - 1;
      w := nodes[i].weight;
      InPlayStep(Ids(nodes), i);
      if nodes[i].id in nodeSet {
        nodeSet := nodeSet - {nodes[i].id};
      }
      i := i + 1;
    }
    PlanPolicy(Wants(nodes, len, g), len, addr, Interleave, InPlaySets(Ids(nodes)), |nodes|);
  }

  // ----- contiguous slices -----

  function SliceBytes(weight: real, size: nat, g: nat): nat
    requires 0.0 <= weight && 0 < g
  {
    TimesMonotone(size, weight / 100.0, 0.0);
    TimesDistributes(size, 0.0, 0.0);
    Alignment.AlignUp(Trunc(Times(size, weight / 100.0)), g)
  }

  lemma {:induction false} WeightAtLeastZero(nodes: seq<Record>, i: nat)
    requires Sorted(nodes) && i < |nodes|
    ensures 0.0 <= nodes[i].weight
  {
    WeightsAscend(nodes, i + 1, i + 1);
  }

  function Slices(nodes: seq<Record>, size: nat, g: nat): (want: seq<nat>)
    requires Sorted(nodes) && 0 < g
    ensures |want| == |nodes|
  {
    seq(|nodes|, i requires 0 <= i < |nodes| =>
      WeightAtLeastZero(nodes, i);
      SliceBytes(nodes[i].weight, size, g))
  }

  function Singles(ids: seq<int>): (served: seq<set<int>>)
    ensures |served| == |ids|
  {
    seq(|ids|, i requires 0 <= i < |ids| => {ids[i]})
  }

  function SlicesReached(nodes: seq<Record>, len: nat, g: nat, i: nat): nat
    requires Sorted(nodes) && 0 < g && i <= |nodes|
  {
    Cut(Slices(nodes, len, g), len, i)
  }

  function SliceCalls(nodes: seq<Record>, addr: nat, len: nat, g: nat, i: nat): seq<Mbind>
    requires Sorted(nodes) && 0 < g && i <= |nodes|
  {
    Plan(Slices(nodes, len, g), len, addr, Bind, Singles(Ids(nodes)), i)
  }

  lemma {:induction false} SliceAt(nodes: seq<Record>, len: nat, g: nat, i: nat)
    requires Sorted(nodes) && 0 < g && i < |nodes| && 0.0 <= nodes[i].weight
    ensures Slices(nodes, len, g)[i] == SliceBytes(nodes[i].weight, len, g)
    ensures Singles(Ids(nodes))[i] == {nodes[i].id}
  {
  }

  lemma {:induction false} SliceStep(nodes: seq<Record>, addr: nat, len: nat, g: nat, i: nat, taken: nat)
    requires Sorted(nodes) && 0 < g && i < |nodes| && SlicesReached(nodes, len, g, i) <= len
    requires 0.0 <= nodes[i].weight
    requires taken == Min(SliceBytes(nodes[i].weight, len, g), len - SlicesReached(nodes, len, g, i))
    ensures SlicesReached(nodes, len, g, i + 1) == SlicesReached(nodes, len, g, i) + taken
    ensures SliceCalls(nodes, addr, len, g, i + 1)
         == if taken == 0 then SliceCalls(nodes, addr, len, g, i)
            else SliceCalls(nodes, addr, len, g, i)
                 + [Mbind(addr + SlicesReached(nodes, len, g, i), taken, Bind, {nodes[i].id})]
  {
    SliceAt(nodes, len, g, i);
    PlanStep(Slices(nodes, len, g), len, addr, Bind, Singles(Ids(nodes)), i, taken);
  }

  lemma {:induction false} SlicesSettled(nodes: seq<Record>, addr: nat, len: nat, g: nat, i: nat)
    requires Sorted(nodes) && 0 < g && i <= |nodes| && SlicesReached(nodes, len, g, i) == len
    ensures SliceCalls(nodes, addr, len, g, i) == SliceCalls(nodes, addr, len, g, |nodes|)
  {
    PlanSettled(Slices(nodes, len, g), len, addr, Bind, Singles(Ids(nodes)), i, |nodes|);
  }

  /** The loop of place_pages_weighted_contiguous: one slice per node, in table order. */
  method PlacePagesContiguous(nodes: seq<Record>, addr: nat, len: nat, g: nat) returns (calls: seq<Mbind>)
    requires Sorted(nodes) && 0 < g
    ensures calls == Plan(Slices(nodes, len, g), len, addr, Bind, Singles(Ids(nodes)), |nodes|)
    ensures forall c :: c in calls ==> c.policy == Bind
  {
    var size, start := len, addr;
    var nodeSet := {};
    var totalSize := 0;
    calls := [];
    var i := 0;
    while i < |nodes|
      invariant 0 <= i <= |nodes| && nodeSet == {}
      invariant totalSize == SlicesReached(nodes, len, g, i) <= len && start == addr + totalSize
      invariant calls == SliceCalls(nodes, addr, len, g, i)
    {
      if totalSize == size {
        SlicesSettled(nodes, addr, len, g, i);
        break;
      }
      nodeSet := nodeSet + {nodes[i].id};
      assert nodeSet == {nodes[i].id};
      WeightAtLeastZero(nodes, i);
      var mySize := SliceBytes(nodes[i].weight, size, g);
      var remaining := size - totalSize;
      if mySize > remaining {
        mySize := remaining;
      }
      SliceStep(nodes, addr, len, g, i, mySize);
      totalSize := totalSize + mySize;
      if mySize != 0 {
        calls := calls + [Mbind(start, mySize, Bind, nodeSet)];
        start := start + mySize;
      }
      if nodes[i].id in nodeSet {
        nodeSet := nodeSet - {nodes[i].id};
      }
      i := i + 1;
    }
    PlanPolicy(Slices(nodes, len, g), len, addr, Bind, Singles(Ids(nodes)), |nodes|);
  }
}
