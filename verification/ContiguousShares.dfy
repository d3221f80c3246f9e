/** The contiguous layout, and how close it comes to the interleaved one. */
module ContiguousShares {
  import opened Rounding
  import opened Dealing
  import opened Kernel
  import opened WeightedPlacement
  import opened InterleavedShares
  import Alignment

  function SlicePages(nodes: seq<Record>, size: nat, g: nat): (pages: seq<nat>)
    requires Sorted(nodes) && 0 < g
    ensures |pages| == |nodes|
  {
    seq(|nodes|, i requires 0 <= i < |nodes| => Alignment.PageOf(Slices(nodes, size, g)[i], g))
  }

  lemma {:induction false} SliceBounds(nodes: seq<Record>, size: nat, g: nat, i: nat)
    requires Sorted(nodes) && 0 < g && i < |nodes|
    ensures Alignment.Whole(Slices(nodes, size, g)[i], g)
    ensures Shares(nodes, size)[i] - 1.0 < Slices(nodes, size, g)[i] as real < Shares(nodes, size)[i] + g as real
  {
    WeightAtLeastZero(nodes, i);
    var x := Times(size, nodes[i].weight / 100.0);
    TimesMonotone(size, nodes[i].weight / 100.0, 0.0);
    TimesDistributes(size, 0.0, 0.0);
    assert Slices(nodes, size, g)[i] == SliceBytes(nodes[i].weight, size, g);
    Alignment.AlignWhole(Trunc(x), g);
  }

  /** A slice is exactly the least whole pages that its share, truncated to bytes, fills. */
  lemma {:induction false} SlicesAreExact(nodes: seq<Record>, size: nat, g: nat, i: nat)
    requires Sorted(nodes) && 0 < g && i < |nodes|
    ensures LeastPages(Slices(nodes, size, g)[i], Shares(nodes, size)[i], g)
  {
    WeightAtLeastZero(nodes, i);
    TimesMonotone(size, nodes[i].weight / 100.0, 0.0);
    TimesDistributes(size, 0.0, 0.0);
    TruncatedPages(Times(size, nodes[i].weight / 100.0), g);
  }

  lemma {:induction false} SlicesInBytes(nodes: seq<Record>, size: nat, g: nat)
    requires Sorted(nodes) && 0 < g
    ensures InBytes(Slices(nodes, size, g), SlicePages(nodes, size, g), g)
  {
    var want, pages := Slices(nodes, size, g), SlicePages(nodes, size, g);
    forall i | 0 <= i < |want| ensures want[i] == Alignment.Bytes(pages[i], g) {
      SliceBounds(nodes, size, g, i);
    }
  }

  /** A slice is within a page of its share. */
  lemma {:induction false} SliceWithinAPage(nodes: seq<Record>, p: nat, g: nat, i: nat)
    requires Sorted(nodes) && 0 < g && i < |nodes|
    ensures Shares(nodes, p)[i] - 1.0 < SlicePages(nodes, Alignment.Bytes(p, g), g)[i] as real
          < Shares(nodes, p)[i] + 1.0
  {
    var size := Alignment.Bytes(p, g);
    var bytes := Slices(nodes, size, g)[i];
    SliceBounds(nodes, size, g, i);
    TimesBytes(p, g, nodes[i].weight / 100.0);
    PageOfBytes(bytes, Alignment.PageOf(bytes, g), g, Shares(nodes, p)[i]);
  }

  lemma {:induction false} SliceSumBelow(nodes: seq<Record>, p: nat, g: nat, i: nat)
    requires Sorted(nodes) && 0 < g && i <= |nodes|
    ensures Sum(SlicePages(nodes, Alignment.Bytes(p, g), g), i) as real <= RealSum(Shares(nodes, p), i) + i as real
  {
    if i > 0 {
      SliceSumBelow(nodes, p, g, i - 1);
      SliceWithinAPage(nodes, p, g, i - 1);
    }
  }

  lemma {:induction false} RestOfShares(y: seq<real>, k: nat, j: nat)
    requires Ascending(y) && k < j <= |y|
    ensures RealSum(y, j) >= RealSum(y, k) + y[k]
  {
    if k + 1 < j { RestOfShares(y, k, j - 1); }
  }

  /** Whatever earlier slices took too much is at most a page each. */
  lemma {:induction false} ChunkOfSlice(nodes: seq<Record>, p: nat, g: nat, k: nat)
    requires Sorted(nodes) && 0 < g && k < |nodes|
    ensures var got := Chunk(SlicePages(nodes, Alignment.Bytes(p, g), g), p, k) as real;
            Shares(nodes, p)[k] - (k + 1) as real - Excess(nodes, p) < got < Shares(nodes, p)[k] + 1.0
  {
    SharesAscend(nodes, p);
    SharesFit(nodes, p);
    SliceWithinAPage(nodes, p, g, k);
    SliceSumBelow(nodes, p, g, k);
    RestOfShares(Shares(nodes, p), k, |nodes|);
  }

  // ----- who owns a slice -----

  lemma {:induction false} AllTheSame(d: seq<int>, n: int)
    requires forall j :: 0 <= j < |d| ==> d[j] == n
    ensures multiset(d)[n] == |d|
  {
    if d != [] {
      AllTheSame(d[..|d| - 1], n);
      assert d == d[..|d| - 1] + [n];
    }
  }

  lemma {:induction false} DealSingle(lo: nat, hi: nat, t: Turn, n: int, m: int)
    requires lo <= hi && Honours(t, Bind, {n})
    ensures multiset(Deal(lo, hi, t))[m] == if m == n then hi - lo else 0
  {
    var d := Deal(lo, hi, t);
    forall j | 0 <= j < |d| ensures d[j] == n {
      assert d[j] in t.order;
    }
    AllTheSame(d, n);
    assert m != n ==> m !in d;
  }

  /** Every call serves one node, each a different one. */
  ghost predicate OneEach(want: seq<nat>, turns: seq<Turn>, ids: seq<int>) {
    && |want| == |turns| == |ids| && Distinct(ids)
    && AllServe(turns, Bind, Singles(ids)) && SomeoneServed(turns)
  }

  lemma {:induction false} SliceGain(want: seq<nat>, cap: nat, turns: seq<Turn>, ids: seq<int>, k: nat, i: nat)
    requires OneEach(want, turns, ids) && i < |want| && k < |ids|
    ensures Pages(want, cap, turns, i + 1, ids[k]) - Pages(want, cap, turns, i, ids[k])
         == if i == k then Chunk(want, cap, i) else 0
  {
    PagesAdded(want, cap, turns, i, ids[k]);
    SumMonotone(want, i, i + 1);
    assert Honours(turns[i], Bind, Singles(ids)[i]);
    DealSingle(Cut(want, cap, i), Cut(want, cap, i + 1), turns[i], ids[i], ids[k]);
    assert i < k ==> Differ(ids, i, k);
    assert k < i ==> Differ(ids, k, i);
  }

  /** After i slices the node at position k has c pages: its own slice, once that has been dealt. */
  ghost predicate Counted(want: seq<nat>, cap: nat, turns: seq<Turn>, ids: seq<int>, k: nat, i: nat, c: int)
    requires i <= |want| == |turns| == |ids| && k < |ids| && SomeoneServed(turns)
  {
    c == Pages(want, cap, turns, i, ids[k]) && c == if k < i then Chunk(want, cap, k) else 0
  }

  lemma {:induction false} CountedNext(want: seq<nat>, cap: nat, turns: seq<Turn>, ids: seq<int>, k: nat, i: nat,
                                       before: int) returns (after: int)
    requires OneEach(want, turns, ids) && i < |want| && k < |ids|
    requires Counted(want, cap, turns, ids, k, i, before)
    ensures Counted(want, cap, turns, ids, k, i + 1, after)
  {
    SliceGain(want, cap, turns, ids, k, i);
    after := Pages(want, cap, turns, i + 1, ids[k]);
  }

  lemma {:induction false} CountedTo(want: seq<nat>, cap: nat, turns: seq<Turn>, ids: seq<int>, k: nat, i: nat)
      returns (c: int)
    requires OneEach(want, turns, ids) && i <= |want| && k < |ids|
    ensures Counted(want, cap, turns, ids, k, i, c)
    decreases i
  {
    if i == 0 {
      NoPages(want, cap, turns, ids[k]);
      c := 0;
    } else {
      c := CountedTo(want, cap, turns, ids, k, i - 1);
      c := CountedNext(want, cap, turns, ids, k, i - 1, c);
    }
  }

  /** A node owns its own slice and nothing of the others. */
  lemma {:induction false} SliceOwner(want: seq<nat>, cap: nat, turns: seq<Turn>, ids: seq<int>, k: nat)
    requires OneEach(want, turns, ids) && k < |ids|
    ensures Pages(want, cap, turns, |want|, ids[k]) == Chunk(want, cap, k)
  {
    var c := CountedTo(want, cap, turns, ids, k, |want|);
  }

  function SlicePlan(nodes: seq<Record>, base: nat, p: nat, g: nat): seq<Mbind>
    requires Sorted(nodes) && 0 < g
  {
    var size := Alignment.Bytes(p, g);
    Plan(Slices(nodes, size, g), size, Alignment.Bytes(base, g), Bind, Singles(Ids(nodes)), |nodes|)
  }

  lemma {:induction false} SinglesServe(ids: seq<int>) returns (idle: seq<Turn>)
    ensures AllServe(idle, Bind, Singles(ids))
  {
    idle := seq(|ids|, i requires 0 <= i < |ids| => Turn([ids[i]], 0));
    forall i | 0 <= i < |ids| ensures Honours(idle[i], Bind, Singles(ids)[i]) {
    }
  }

  lemma {:induction false} SliceOwned(nodes: seq<Record>, base: nat, p: nat, g: nat, choice: Choice, k: nat)
    requires Table(nodes) && 0 < g && k < |nodes| && Obeys(choice, SlicePlan(nodes, base, p, g))
    ensures Owned(SlicePlan(nodes, base, p, g), choice, g, nodes[k].id)
         == Chunk(SlicePages(nodes, Alignment.Bytes(p, g), g), p, k)
  {
    var size, ids := Alignment.Bytes(p, g), Ids(nodes);
    SlicesInBytes(nodes, size, g);
    var idle := SinglesServe(ids);
    var turns := CallsAreRounds(Slices(nodes, size, g), SlicePages(nodes, size, g), p, base, Bind,
                                Singles(ids), idle, choice, g);
    SliceOwner(SlicePages(nodes, size, g), p, turns, ids, k);
  }

  /** The slice of the node at position k has fewer than a page above its share and fewer than k + 1
      below, or as many more as the weights exceed the region. */
  lemma {:induction false} ContiguousProportional(nodes: seq<Record>, base: nat, p: nat, g: nat, choice: Choice, k: nat)
    requires Table(nodes) && 0 < g && k < |nodes| && Obeys(choice, SlicePlan(nodes, base, p, g))
    ensures var got := Owned(SlicePlan(nodes, base, p, g), choice, g, nodes[k].id) as real;
            var share := Times(p, nodes[k].weight / 100.0);
            share - (k + 1) as real - Excess(nodes, p) < got < share + 1.0
  {
    SliceOwned(nodes, base, p, g, choice, k);
    ChunkOfSlice(nodes, p, g, k);
  }

  /** The two layouts implement the same distribution: no node's total differs by 2N pages and
      what the weights exceed the region by. */
  lemma {:induction false} LayoutsAgree(nodes: seq<Record>, base: nat, p: nat, g: nat, choice: Choice,
                                        choice': Choice, k: nat)
    requires Table(nodes) && 0 < g && k < |nodes|
    requires Obeys(choice, RegionPlan(nodes, base, p, g)) && Obeys(choice', SlicePlan(nodes, base, p, g))
    ensures var difference := Owned(RegionPlan(nodes, base, p, g), choice, g, nodes[k].id)
                              - Owned(SlicePlan(nodes, base, p, g), choice', g, nodes[k].id);
            var bound := 2.0 * |nodes| as real + Excess(nodes, p);
            -bound < difference as real < bound
  {
    InterleavedProportional(nodes, base, p, g, choice, k);
    ContiguousProportional(nodes, base, p, g, choice', k);
  }

  // ----- covering the region -----

  lemma {:induction false} SliceBytesAsked(nodes: seq<Record>, size: nat, g: nat, i: nat)
    requires Sorted(nodes) && 0 < g && i <= |nodes|
    ensures Sum(Slices(nodes, size, g), i) as real >= RealSum(Shares(nodes, size), i) - i as real
    ensures 0 < i ==> Sum(Slices(nodes, size, g), i) as real > RealSum(Shares(nodes, size), i) - i as real
  {
    if i > 0 {
      SliceBytesAsked(nodes, size, g, i - 1);
      SliceBounds(nodes, size, g, i - 1);
    }
  }

  /** The slices tile the region from its first byte to its last. */
  lemma {:induction false} SlicesTileRegion(nodes: seq<Record>, base: nat, p: nat, g: nat)
    requires Sorted(nodes) && 0 < |nodes| <= g && TotalWeight(nodes, |nodes|) >= 100.0
    ensures Tile(SlicePlan(nodes, base, p, g), Alignment.Bytes(base, g), Alignment.Bytes(base + p, g))
  {
    var size, n := Alignment.Bytes(p, g), |nodes|;
    var want, pages := Slices(nodes, size, g), SlicePages(nodes, size, g);
    SliceBytesAsked(nodes, size, g, n);
    SharesTotal(nodes, size, n);
    AskedInFull(Sum(want, n), size, TotalWeight(nodes, n), n, g);
    SlicesInBytes(nodes, size, g);
    WholePagesSuffice(want, pages, p, g);
    PlanTiles(want, size, Alignment.Bytes(base, g), Bind, Singles(Ids(nodes)), n);
    Alignment.BytesAdd(base, p, g);
  }

  /** So do the interleaved chunks. */
  lemma {:induction false} ChunksTileRegion(nodes: seq<Record>, base: nat, p: nat, g: nat)
    requires Table(nodes) && 0 < |nodes| <= g && TotalWeight(nodes, |nodes|) >= 100.0
    ensures Tile(RegionPlan(nodes, base, p, g), Alignment.Bytes(base, g), Alignment.Bytes(base + p, g))
  {
    var size := Alignment.Bytes(p, g);
    RegionCovered(nodes, p, g);
    PlanTiles(Wants(nodes, size, g), size, Alignment.Bytes(base, g), Interleave, InPlaySets(Ids(nodes)), |nodes|);
    Alignment.BytesAdd(base, p, g);
  }
}
