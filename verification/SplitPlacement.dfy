/** Adaptive placement by ratio: a prefix stays interleaved, the rest is bound to the workers. */
module SplitPlacement {
  import opened Outcomes
  import opened Rounding
  import opened Dealing
  import opened Kernel
  import opened InterleavedShares
  import opened ContiguousShares
  import Alignment

  function LocalRatio(n: nat, r: real): real
    requires 2 <= n
  {
    r - (1.0 - r) / (n - 1) as real
  }

  function InterleaveRatio(n: nat, r: real): real
    requires 2 <= n
  {
    1.0 - LocalRatio(n, r)
  }

  /** What the interleave ratio is for: n - 1 parts of it are n parts of 1 - r, so that the uniform
      prefix brings the local node up to r. */
  lemma {:induction false} RatioBalance(n: nat, r: real)
    requires 2 <= n
    ensures Times(n - 1, InterleaveRatio(n, r)) == Times(n, 1.0 - r)
  {
    var m, x := (n - 1) as real, 1.0 - r;
    TimesIsProduct(n - 1, InterleaveRatio(n, r));
    TimesIsProduct(n, x);
    Quotient(x, m);
    assert InterleaveRatio(n, r) == x + x / m;
    assert m * (x + x / m) == m * x + m * (x / m);
    assert n as real * x == m * x + x;
  }

  lemma {:induction false} Quotient(x: real, m: real)
    requires 0.0 < m
    ensures m * (x / m) == x
  {
  }

  /** Both ratios lie in [0, 1] exactly when r is at least an even share. */
  lemma {:induction false} RatiosValid(n: nat, r: real)
    requires 2 <= n
    ensures 0.0 <= r <= 1.0 && 0.0 <= LocalRatio(n, r) <= 1.0 && 0.0 <= InterleaveRatio(n, r) <= 1.0
       <==> 1.0 <= Times(n, r) && r <= 1.0
  {
    RatioBalance(n, r);
    TimesDistributes(n, 1.0, r);
    TimesOne(n);
    TimesOne(n - 1);
    TimesDistributes(n, 0.0, 0.0);
    TimesDistributes(n - 1, 0.0, 0.0);
    TimesCompare(n - 1, InterleaveRatio(n, r), 1.0);
    TimesCompare(n - 1, 0.0, InterleaveRatio(n, r));
    TimesCompare(n, 0.0, 1.0 - r);
    TimesCompare(n, 0.0, r);
  }

  function InterleaveLen(len: nat, g: nat, n: nat, r: real): nat
    requires 2 <= n && 0 < g && 0.0 <= InterleaveRatio(n, r)
  {
    TimesMonotone(len, InterleaveRatio(n, r), 0.0);
    TimesDistributes(len, 0.0, 0.0);
    Alignment.AlignDown(Trunc(Times(len, InterleaveRatio(n, r))), g)
  }

  lemma {:induction false} InterleaveFits(len: nat, g: nat, n: nat, r: real)
    requires 2 <= n && 0 < g && 0.0 <= InterleaveRatio(n, r) <= 1.0
    ensures InterleaveLen(len, g, n, r) <= len
    ensures Alignment.Whole(InterleaveLen(len, g, n, r), g)
  {
    TimesMonotone(len, 1.0, InterleaveRatio(n, r));
    TimesOne(len);
    TimesMonotone(len, InterleaveRatio(n, r), 0.0);
    TimesDistributes(len, 0.0, 0.0);
    Alignment.AlignWhole(Trunc(Times(len, InterleaveRatio(n, r))), g);
  }

  /** Taking whole pages off a length does not change what is left over. */
  lemma {:induction false} PartsTotal(len: nat, part: nat, g: nat)
    requires 0 < g && part <= len && Alignment.Whole(part, g)
    ensures part + Alignment.AlignDown(len - part, g) == Alignment.AlignDown(len, g)
  {
    var a, b := Alignment.PageOf(part, g), Alignment.PageOf(len - part, g);
    Alignment.BytesAdd(a, b, g);
    Alignment.PageUnique(len, a + b, g);
  }

  function WorkerNodes(workers: int): set<int> {
    if workers == 1 then {0}
    else if workers == 2 then {0, 1}
    else if workers == 3 then {1, 2, 3}
    else if workers == 4 then {0, 1, 2, 3}
    else {}
  }

  function SplitCalls(addr: nat, len: nat, g: nat, n: nat, r: real, workers: int): seq<Mbind>
    requires 2 <= n && 0 < g && 0.0 <= InterleaveRatio(n, r) <= 1.0
  {
    InterleaveFits(len, g, n, r);
    var prefix := InterleaveLen(len, g, n, r);
    var localLen := Alignment.AlignDown(len - prefix, g);
    if localLen == 0 || WorkerNodes(workers) == {} then []
    else [Mbind(addr + prefix, localLen, Interleave, WorkerNodes(workers))]
  }

  /** place_pages(addr, len, r).  The source computes the lengths before it checks the ratios; a ratio
      that fails a check ends the process, so the order does not matter.  With one node the division gives
      an infinite local ratio, except for r = 1, where it is 0 / 0 and the lengths are undefined. */
  method PlacePages(addr: nat, len: nat, g: nat, n: nat, r: real, workers: int) returns (out: Outcome<seq<Mbind>>)
    requires 1 <= n && (n == 1 ==> r != 1.0) && 0 < g
    ensures out.Ok? <==> 1.0 <= Times(n, r) && r <= 1.0
    ensures out.Die? ==> out.message == if r < 0.0 || r > 1.0 then "specified ratio must be between 0 and 1!"
                                        else "bad local_ratio calculation"
    ensures out.Ok? ==> 2 <= n && 0.0 <= InterleaveRatio(n, r) <= 1.0 && out.value == SplitCalls(addr, len, g, n, r, workers)
  {
    if n == 1 {
      assert Times(1, r) == Times(0, r) + r;
      return Die(if r < 0.0 || r > 1.0 then "specified ratio must be between 0 and 1!"
                 else "bad local_ratio calculation");
    }
    RatiosValid(n, r);
    var localRatio := r - (1.0 - r) / (n - 1) as real;
    var interleaveRatio := 1.0 - localRatio;
    if r < 0.0 || r > 1.0 {
      return Die("specified ratio must be between 0 and 1!");
    }
    if localRatio < 0.0 || localRatio > 1.0 {
      return Die("bad local_ratio calculation");
    }
    if interleaveRatio < 0.0 || interleaveRatio > 1.0 {
      return Die("bad interleave_ratio calculation");
    }
    var interleaveLen := InterleaveLen(len, g, n, r);
    InterleaveFits(len, g, n, r);
    var localLen := Alignment.AlignDown(len - interleaveLen, g);
    PartsTotal(len, interleaveLen, g);
    Alignment.AlignWhole(len - interleaveLen, g);
    Alignment.PagesAreQuotients(localLen, g);
    Alignment.PagesAreQuotients(interleaveLen, g);
    if localLen % g != 0 {
      return Die("local length must be multiple of the page size");
    }
    if interleaveLen % g != 0 {
      return Die("interleave length must be multiple of the page size");
    }
    if localLen + interleaveLen != Alignment.AlignDown(len, g) {
      return Die("local and interleave lengths should total the original length");
    }
    if localLen <= 0 {
      return Ok([]);
    }
    var localAddr := addr + interleaveLen;
    if workers == 1 {
      out := Ok([Mbind(localAddr, localLen, Interleave, {0})]);
    } else if workers == 2 {
      out := Ok([Mbind(localAddr, localLen, Interleave, {0, 1})]);
    } else if workers == 3 {
      out := Ok([Mbind(localAddr, localLen, Interleave, {1, 2, 3})]);
    } else if workers == 4 {
      out := Ok([Mbind(localAddr, localLen, Interleave, {0, 1, 2, 3})]);
    } else {
      out := Ok([]);
    }
  }

  /** The part bound to the workers only grows with r. */
  lemma {:induction false} SuffixGrows(len: nat, g: nat, n: nat, r: real, r': real)
    requires 2 <= n && 0 < g && r <= r' && 0.0 <= InterleaveRatio(n, r')
    ensures 0.0 <= InterleaveRatio(n, r)
    ensures InterleaveLen(len, g, n, r') <= InterleaveLen(len, g, n, r)
  {
    var ir, ir' := InterleaveRatio(n, r), InterleaveRatio(n, r');
    RatioBalance(n, r);
    RatioBalance(n, r');
    TimesMonotone(n, 1.0 - r, 1.0 - r');
    TimesCompare(n - 1, ir', ir);
    TimesMonotone(len, ir, ir');
    TimesMonotone(len, ir', 0.0);
    TimesDistributes(len, 0.0, 0.0);
    TruncMonotone(Times(len, ir'), Times(len, ir));
    var a, b := Alignment.PageOf(Trunc(Times(len, ir')), g), Alignment.PageOf(Trunc(Times(len, ir)), g);
    Alignment.BytesOrdered(b, a, g);
  }

  // ----- in pages -----

  function PrefixPages(p: nat, n: nat, r: real): (k: nat)
    requires 2 <= n && 0.0 <= InterleaveRatio(n, r)
  {
    TimesMonotone(p, InterleaveRatio(n, r), 0.0);
    TimesDistributes(p, 0.0, 0.0);
    Trunc(Times(p, InterleaveRatio(n, r)))
  }

  /** Truncating to bytes and then to pages is truncating to pages. */
  lemma {:induction false} PrefixInPages(p: nat, g: nat, n: nat, r: real)
    requires 2 <= n && 0 < g && 0.0 <= InterleaveRatio(n, r) <= 1.0
    ensures InterleaveLen(Alignment.Bytes(p, g), g, n, r) == Alignment.Bytes(PrefixPages(p, n, r), g)
    ensures PrefixPages(p, n, r) <= p
  {
    var ir := InterleaveRatio(n, r);
    var z, q := Times(p, ir), PrefixPages(p, n, r);
    TimesMonotone(p, ir, 0.0);
    TimesDistributes(p, 0.0, 0.0);
    TimesMonotone(p, 1.0, ir);
    TimesOne(p);
    TimesBytes(p, g, ir);
    PageOfReal(z, q, g);
  }

  lemma {:induction false} PageOfReal(z: real, q: nat, g: nat)
    requires 0 < g && q as real <= z < q as real + 1.0
    ensures 0.0 <= Times(g, z) && Alignment.PageOf(Trunc(Times(g, z)), g) == q
  {
    BytesAsTimes(q, g);
    TimesMonotone(g, z, q as real);
    TimesDistributes(g, q as real, 1.0);
    TimesOne(g);
    TimesCompare(g, q as real + 1.0, z);
    Alignment.PageUnique(Trunc(Times(g, z)), q, g);
  }

  // ----- what one step does -----

  /** The pages after at most one call: those in its range are dealt anew, the others stay. */
  ghost function Rebound(pages: seq<int>, base: nat, calls: seq<Mbind>, choice: Choice, g: nat): (r: seq<int>)
    requires 0 < g && Obeys(choice, calls) && |calls| <= 1
    ensures |r| == |pages|
  {
    if calls == [] then pages
    else
      assert calls[0] in calls;
      var lo, hi := Alignment.PageOf(calls[0].start, g), EndPage(calls[0], g);
      Overwritten(pages, lo - base, hi - base, Deal(lo, hi, choice(calls[0])))
  }

  ghost function Overwritten(pages: seq<int>, lo: int, hi: int, dealt: seq<int>): (r: seq<int>)
    requires |dealt| == hi - lo
    ensures |r| == |pages|
  {
    if 0 <= lo <= hi <= |pages| then pages[..lo] + dealt + pages[hi..] else pages
  }

  /** Each of the nodes has an even share of the pages to within one page, and no other node has any. */
  ghost predicate EvenlyOver(pages: seq<int>, nodes: set<int>) {
    forall w :: if w in nodes then EvenShare(|nodes|, multiset(pages)[w], |pages|) else multiset(pages)[w] == 0
  }

  lemma {:induction false} DealtEvenly(lo: nat, hi: nat, t: Turn, nodes: set<int>)
    requires lo <= hi && Serves(t, nodes)
    ensures EvenlyOver(Deal(lo, hi, t), nodes)
  {
    DistinctSize(t.order);
    assert forall w :: w in Elements(t.order) <==> w in nodes;
    assert Elements(t.order) == nodes;
    forall w ensures if w in nodes then EvenShare(|nodes|, multiset(Deal(lo, hi, t))[w], hi - lo)
                     else multiset(Deal(lo, hi, t))[w] == 0
    {
      if w in nodes {
        assert w in t.order;
        var m :| 0 <= m < |t.order| && t.order[m] == w;
        DealShare(lo, hi, t, m);
      } else {
        DealAvoids(lo, hi, t, w);
      }
    }
  }

  /** The first q pages stay as they were, the others are dealt evenly to the nodes. */
  ghost predicate CutAt(before: seq<int>, after: seq<int>, q: nat, nodes: set<int>) {
    q <= |before| == |after| && after[..q] == before[..q] && EvenlyOver(after[q..], nodes)
  }

  /** The only call covers exactly the pages after the prefix. */
  lemma {:induction false} SplitRange(base: nat, p: nat, g: nat, n: nat, r: real, workers: int)
    requires 2 <= n && 0 < g && InRange(n, r)
    ensures var calls := SplitCalls(Alignment.Bytes(base, g), Alignment.Bytes(p, g), g, n, r, workers);
            var q, nodes := PrefixPages(p, n, r), WorkerNodes(workers);
            && q <= p
            && calls == if q == p || nodes == {} then []
                        else [Mbind(Alignment.Bytes(base + q, g), Alignment.Bytes(p - q, g), Interleave, nodes)]
  {
    var q := PrefixPages(p, n, r);
    PrefixInPages(p, g, n, r);
    Alignment.BytesAdd(q, p - q, g);
    Alignment.BytesWhole(p - q, g);
    Alignment.BytesOrdered(0, p - q, g);
    Alignment.BytesAdd(base, q, g);
  }

  lemma {:induction false} SplitPagesOf(base: nat, q: nat, p: nat, g: nat)
    requires 0 < g && q <= p
    ensures Alignment.PageOf(Alignment.Bytes(base + q, g), g) == base + q
    ensures Alignment.PageOf(Alignment.Bytes(base + q, g) + Alignment.Bytes(p - q, g), g) == base + p
  {
    Alignment.BytesAdd(base + q, p - q, g);
    Alignment.BytesWhole(base + q, g);
    Alignment.BytesWhole(base + p, g);
  }

  lemma {:induction false} OverwriteSuffix(pages: seq<int>, q: nat, dealt: seq<int>, nodes: set<int>)
    requires q <= |pages| && |dealt| == |pages| - q && EvenlyOver(dealt, nodes)
    ensures CutAt(pages, Overwritten(pages, q, |pages|, dealt), q, nodes)
  {
    var after := Overwritten(pages, q, |pages|, dealt);
    assert pages[|pages|..] == [];
    assert after == pages[..q] + dealt;
    assert after[q..] == dealt;
  }

  lemma {:induction false} ReboundOne(pages: seq<int>, base: nat, q: nat, c: Mbind, choice: Choice, g: nat)
    requires 0 < g && q <= |pages| && Obeys(choice, [c]) && c.policy == Interleave
    requires Alignment.PageOf(c.start, g) == base + q && EndPage(c, g) == base + |pages|
    ensures Serves(choice(c), c.nodes)
    ensures Rebound(pages, base, [c], choice, g)
         == Overwritten(pages, q, |pages|, Deal(base + q, base + |pages|, choice(c)))
  {
    assert c in [c];
  }

  lemma {:induction false} ReboundSuffix(pages: seq<int>, base: nat, q: nat, c: Mbind, choice: Choice, g: nat)
    requires 0 < g && q <= |pages| && Obeys(choice, [c]) && c.policy == Interleave
    requires Alignment.PageOf(c.start, g) == base + q && EndPage(c, g) == base + |pages|
    ensures CutAt(pages, Rebound(pages, base, [c], choice, g), q, c.nodes)
  {
    ReboundOne(pages, base, q, c, choice, g);
    DealtEvenly(base + q, base + |pages|, choice(c), c.nodes);
    OverwriteSuffix(pages, q, Deal(base + q, base + |pages|, choice(c)), c.nodes);
  }

  lemma {:induction false} NothingCut(pages: seq<int>, nodes: set<int>)
    ensures CutAt(pages, pages, |pages|, nodes)
  {
    assert pages[|pages|..] == [];
    forall w | w in nodes ensures EvenShare(|nodes|, 0, 0) {
      assert nodes == {w} + (nodes - {w});
      EvenShareIs(|nodes|, 0, 0);
    }
  }

  lemma {:induction false} CallEffect(pages: seq<int>, base: nat, g: nat, q: nat, nodes: set<int>, choice: Choice,
                                      calls: seq<Mbind>)
    requires 0 < g && q < |pages| && Obeys(choice, calls)
    requires calls == [Mbind(Alignment.Bytes(base + q, g), Alignment.Bytes(|pages| - q, g), Interleave, nodes)]
    ensures CutAt(pages, Rebound(pages, base, calls, choice, g), q, nodes)
  {
    SplitPagesOf(base, q, |pages|, g);
    ReboundSuffix(pages, base, q, calls[0], choice, g);
  }

  /** A step keeps the first pages as they are and deals the rest to the workers; with a number of workers
      that it does not know it changes nothing. */
  lemma {:induction false} StepEffect(pages: seq<int>, base: nat, g: nat, n: nat, r: real, workers: int, choice: Choice,
                                      calls: seq<Mbind>)
    requires 2 <= n && 0 < g && InRange(n, r) && Obeys(choice, calls)
    requires calls == SplitCalls(Alignment.Bytes(base, g), Alignment.Bytes(|pages|, g), g, n, r, workers)
    ensures |calls| <= 1
    ensures if WorkerNodes(workers) == {} then Rebound(pages, base, calls, choice, g) == pages
            else CutAt(pages, Rebound(pages, base, calls, choice, g), PrefixPages(|pages|, n, r), WorkerNodes(workers))
  {
    var q, nodes := PrefixPages(|pages|, n, r), WorkerNodes(workers);
    SplitRange(base, |pages|, g, n, r, workers);
    if nodes == {} {
    } else if q == |pages| {
      NothingCut(pages, nodes);
    } else {
      CallEffect(pages, base, g, q, nodes, choice, calls);
    }
  }

  lemma {:induction false} EvenShareIs(a: nat, got: int, c: nat)
    ensures EvenShare(a, got, c) <==> -(a - 1) <= a * got - c <= a - 1
  {
    TimesIsProduct(a, got as real);
    assert (a * got) as real == a as real * got as real;
  }

  /** What a node owns of the rest of a region, by the number of workers: node 0 all of it with one worker,
      and an even share to within one page nodes 0 and 1 with two, nodes 1 to 3 with three, and nodes 0 to 3
      with four. */
  ghost predicate RestShare(workers: int, w: int, c: nat, rest: nat) {
    && (workers == 1 ==> c == if w == 0 then rest else 0)
    && (workers == 2 ==> if w == 0 || w == 1 then -1 <= 2 * c - rest <= 1 else c == 0)
    && (workers == 3 ==> if 1 <= w <= 3 then -2 <= 3 * c - rest <= 2 else c == 0)
    && (workers == 4 ==> if 0 <= w <= 3 then -3 <= 4 * c - rest <= 3 else c == 0)
  }

  lemma {:induction false} EvenIsRestShare(pages: seq<int>, workers: int, w: int)
    requires 1 <= workers <= 4 && EvenlyOver(pages, WorkerNodes(workers))
    ensures RestShare(workers, w, multiset(pages)[w], |pages|)
  {
    WorkerNodesAre(workers);
    EvenShareIs(|WorkerNodes(workers)|, multiset(pages)[w], |pages|);
  }

  /** A step leaves the prefix as it was and shares the rest among the workers; any number of workers but one
      to four leaves every page where it was. */
  lemma {:induction false} StepShares(pages: seq<int>, base: nat, g: nat, n: nat, r: real, workers: int,
                                      choice: Choice, calls: seq<Mbind>, w: int)
    requires 2 <= n && 0 < g && InRange(n, r) && Obeys(choice, calls)
    requires calls == SplitCalls(Alignment.Bytes(base, g), Alignment.Bytes(|pages|, g), g, n, r, workers)
    ensures |calls| <= 1 && PrefixPages(|pages|, n, r) <= |pages|
    ensures var after, q := Rebound(pages, base, calls, choice, g), PrefixPages(|pages|, n, r);
            if 1 <= workers <= 4
            then after[..q] == pages[..q] && RestShare(workers, w, multiset(after[q..])[w], |pages| - q)
            else after == pages
  {
    PrefixInPages(|pages|, g, n, r);
    StepEffect(pages, base, g, n, r, workers, choice, calls);
    WorkerNodesAre(workers);
    if 1 <= workers <= 4 {
      EvenIsRestShare(Rebound(pages, base, calls, choice, g)[PrefixPages(|pages|, n, r)..], workers, w);
    }
  }

  lemma {:induction false} WorkerNodesAre(workers: int)
    ensures workers == 1 ==> WorkerNodes(workers) == {0} && |WorkerNodes(workers)| == 1
    ensures workers == 2 ==> WorkerNodes(workers) == {0, 1} && |WorkerNodes(workers)| == 2
    ensures workers == 3 ==> WorkerNodes(workers) == {1, 2, 3} && |WorkerNodes(workers)| == 3
    ensures workers == 4 ==> WorkerNodes(workers) == {0, 1, 2, 3} && |WorkerNodes(workers)| == 4
    ensures !(1 <= workers <= 4) ==> WorkerNodes(workers) == {}
    ensures 1 <= workers <= 4 ==> 0 < |WorkerNodes(workers)| && WorkerNodes(workers) != {}
  {
    assert |{0, 1}| == 2 && |{1, 2, 3}| == 3 && |{0, 1, 2, 3}| == 4;
  }

  // ----- a sweep -----

  ghost predicate InRange(n: nat, r: real)
    requires 2 <= n
  {
    0.0 <= InterleaveRatio(n, r) <= 1.0
  }

  ghost predicate Accepted(n: nat, ratios: seq<real>)
    requires 2 <= n
  {
    forall i :: 0 <= i < |ratios| ==> InRange(n, ratios[i])
  }

  lemma {:induction false} AcceptedPrefix(n: nat, ratios: seq<real>, k: nat)
    requires 2 <= n && Accepted(n, ratios) && k <= |ratios|
    ensures Accepted(n, ratios[..k])
  {
    forall i | 0 <= i < k ensures InRange(n, ratios[..k][i]) {
      assert InRange(n, ratios[i]);
    }
  }

  ghost predicate Increasing(ratios: seq<real>) {
    forall i, j :: 0 <= i < j < |ratios| ==> ratios[i] <= ratios[j]
  }

  /** A sweep of place_pages calls on a region that starts at page `base`: the ratios of the steps, the
      number of workers, and the kernel's choices, one for each step. */
  datatype Sweep = Sweep(base: nat, g: nat, n: nat, workers: int, ratios: seq<real>, choices: seq<Choice>)

  /** The calls of one step on a region of p pages. */
  ghost function StepCalls(p: nat, s: Sweep, r: real): (calls: seq<Mbind>)
    requires 2 <= s.n && 0 < s.g && InRange(s.n, r)
    ensures |calls| <= 1
  {
    SplitCalls(Alignment.Bytes(s.base, s.g), Alignment.Bytes(p, s.g), s.g, s.n, r, s.workers)
  }

  /** Every step has a ratio that is accepted, and the kernel obeys its calls. */
  ghost predicate Runs(p: nat, s: Sweep) {
    && 2 <= s.n && 0 < s.g && Accepted(s.n, s.ratios) && |s.choices| == |s.ratios|
    && forall i :: 0 <= i < |s.ratios| ==> StepObeys(p, s, i)
  }

  ghost predicate StepObeys(p: nat, s: Sweep, i: nat)
    requires 2 <= s.n && 0 < s.g && Accepted(s.n, s.ratios) && i < |s.ratios| && i < |s.choices|
  {
    assert InRange(s.n, s.ratios[i]);
    Obeys(s.choices[i], StepCalls(p, s, s.ratios[i]))
  }

  /** The sweep without its last step. */
  ghost function Before(s: Sweep): Sweep
    requires 0 < |s.ratios| == |s.choices|
  {
    s.(ratios := s.ratios[..|s.ratios| - 1], choices := s.choices[..|s.ratios| - 1])
  }

  lemma {:induction false} BeforeRuns(p: nat, s: Sweep)
    requires Runs(p, s) && s.ratios != []
    ensures Runs(p, Before(s))
  {
    var b := Before(s);
    AcceptedPrefix(s.n, s.ratios, |s.ratios| - 1);
    forall i | 0 <= i < |b.ratios| ensures StepObeys(p, b, i) {
      assert StepObeys(p, s, i);
    }
  }

  ghost function LastRatio(p: nat, s: Sweep): (r: real)
    requires Runs(p, s) && s.ratios != []
    ensures InRange(s.n, r)
  {
    assert InRange(s.n, s.ratios[|s.ratios| - 1]);
    s.ratios[|s.ratios| - 1]
  }

  /** The pages after the calls of every step, one step after another. */
  ghost function Executed(pages: seq<int>, s: Sweep): (r: seq<int>)
    requires Runs(|pages|, s)
    ensures |r| == |pages|
    decreases |s.ratios|
  {
    if s.ratios == [] then pages
    else
      BeforeRuns(|pages|, s);
      assert StepObeys(|pages|, s, |s.ratios| - 1);
      Rebound(Executed(pages, Before(s)), s.base, StepCalls(|pages|, s, LastRatio(|pages|, s)),
              s.choices[|s.ratios| - 1], s.g)
  }

  lemma {:induction false} LastStep(pages: seq<int>, s: Sweep)
    requires Runs(|pages|, s) && s.ratios != []
    ensures Runs(|pages|, Before(s))
    ensures var before, after := Executed(pages, Before(s)), Executed(pages, s);
            if WorkerNodes(s.workers) == {} then after == before
            else CutAt(before, after, PrefixPages(|pages|, s.n, LastRatio(|pages|, s)), WorkerNodes(s.workers))
  {
    BeforeRuns(|pages|, s);
    assert StepObeys(|pages|, s, |s.ratios| - 1);
    StepEffect(Executed(pages, Before(s)), s.base, s.g, s.n, LastRatio(|pages|, s), s.workers,
               s.choices[|s.ratios| - 1], StepCalls(|pages|, s, LastRatio(|pages|, s)));
  }

  /** With a number of workers that place_pages does not know, a sweep moves nothing. */
  lemma {:induction false} UnknownWorkersMoveNothing(pages: seq<int>, s: Sweep)
    requires Runs(|pages|, s) && !(1 <= s.workers <= 4)
    ensures Executed(pages, s) == pages
    decreases |s.ratios|
  {
    WorkerNodesAre(s.workers);
    if s.ratios != [] {
      LastStep(pages, s);
      UnknownWorkersMoveNothing(pages, Before(s));
    }
  }

  lemma {:induction false} PrefixShrinks(p: nat, n: nat, r: real, r': real)
    requires 2 <= n && InRange(n, r) && InRange(n, r') && r <= r'
    ensures PrefixPages(p, n, r') <= PrefixPages(p, n, r) <= p
  {
    PrefixInPages(p, 1, n, r);
    PrefixInPages(p, 1, n, r');
    SuffixGrows(Alignment.Bytes(p, 1), 1, n, r, r');
    Alignment.BytesIsProduct(PrefixPages(p, n, r), 1);
    Alignment.BytesIsProduct(PrefixPages(p, n, r'), 1);
  }

  lemma {:induction false} CutTwice(pages: seq<int>, once: seq<int>, twice: seq<int>, q: nat, q': nat, nodes: set<int>)
    requires CutAt(pages, once, q, nodes) && CutAt(once, twice, q', nodes) && q' <= q
    ensures CutAt(pages, twice, q', nodes)
  {
    assert once[..q'] == once[..q][..q'] == pages[..q][..q'] == pages[..q'];
  }

  /** One more step of an increasing sweep. */
  lemma {:induction false} KeepsPrefixAgain(pages: seq<int>, s: Sweep, b: Sweep)
    requires Runs(|pages|, s) && Increasing(s.ratios) && s.ratios != [] && WorkerNodes(s.workers) != {}
    requires b == Before(s) && b.ratios != [] && Runs(|pages|, b)
    requires CutAt(pages, Executed(pages, b), PrefixPages(|pages|, s.n, LastRatio(|pages|, b)), WorkerNodes(s.workers))
    ensures CutAt(pages, Executed(pages, s), PrefixPages(|pages|, s.n, LastRatio(|pages|, s)), WorkerNodes(s.workers))
  {
    var r, r' := LastRatio(|pages|, b), LastRatio(|pages|, s);
    LastStep(pages, s);
    assert r == s.ratios[|s.ratios| - 2];
    PrefixShrinks(|pages|, s.n, r, r');
    CutTwice(pages, Executed(pages, b), Executed(pages, s), PrefixPages(|pages|, s.n, r),
             PrefixPages(|pages|, s.n, r'), WorkerNodes(s.workers));
  }

  /** After any increasing sweep the region is what it was before the sweep up to the last ratio's prefix,
      and the rest is dealt evenly to the workers: no earlier step leaves a trace. */
  lemma {:induction false} SweepKeepsPrefix(pages: seq<int>, s: Sweep)
    requires Runs(|pages|, s) && Increasing(s.ratios) && s.ratios != [] && 1 <= s.workers <= 4
    ensures CutAt(pages, Executed(pages, s), PrefixPages(|pages|, s.n, LastRatio(|pages|, s)), WorkerNodes(s.workers))
    decreases |s.ratios|
  {
    WorkerNodesAre(s.workers);
    LastStep(pages, s);
    if |s.ratios| > 1 {
      SweepKeepsPrefix(pages, Before(s));
      KeepsPrefixAgain(pages, s, Before(s));
    }
  }

  // ----- what the workers hold together -----

  function Together(pages: seq<int>, ws: seq<int>): nat {
    if ws == [] then 0 else Together(pages, ws[..|ws| - 1]) + multiset(pages)[ws[|ws| - 1]]
  }

  lemma {:induction false} TogetherAdds(a: seq<int>, b: seq<int>, ws: seq<int>)
    ensures Together(a + b, ws) == Together(a, ws) + Together(b, ws)
  {
    if ws != [] { TogetherAdds(a, b, ws[..|ws| - 1]); }
  }

  lemma {:induction false} TogetherOne(x: int, ws: seq<int>)
    requires Distinct(ws)
    ensures Together([x], ws) == if x in ws then 1 else 0
  {
    if ws != [] {
      var k := |ws| - 1;
      DistinctPrefix(ws, k);
      TogetherOne(x, ws[..k]);
      assert ws == ws[..k] + [ws[k]];
    }
  }

  /** Nodes that own all of the pages hold all of them together. */
  lemma {:induction false} TogetherAll(d: seq<int>, ws: seq<int>)
    requires Distinct(ws) && forall x :: x in d ==> x in ws
    ensures Together(d, ws) == |d|
  {
    if d == [] {
      TogetherNone(ws);
    } else {
      var k := |d| - 1;
      TogetherAll(d[..k], ws);
      TogetherOne(d[k], ws);
      TogetherAdds(d[..k], [d[k]], ws);
      assert d == d[..k] + [d[k]];
    }
  }

  lemma {:induction false} TogetherNone(ws: seq<int>)
    ensures Together([], ws) == 0
  {
    if ws != [] { TogetherNone(ws[..|ws| - 1]); }
  }

  /** Even shares of q pages over n nodes, m times. */
  ghost predicate EvenShares(n: nat, m: nat, held: nat, q: nat) {
    Times(m, (q - (n - 1)) as real) <= Times(n, held as real) <= Times(m, (q + n - 1) as real)
  }

  lemma {:induction false} TogetherEven(pages: seq<int>, ws: seq<int>, n: nat)
    requires 0 < n && forall i :: 0 <= i < |ws| ==> EvenShare(n, multiset(pages)[ws[i]], |pages|)
    ensures EvenShares(n, |ws|, Together(pages, ws), |pages|)
  {
    if ws == [] {
      TimesDistributes(n, 0.0, 0.0);
    } else {
      var k := |ws| - 1;
      TogetherEven(pages, ws[..k], n);
      OneMore(n, Together(pages, ws[..k]), multiset(pages)[ws[k]], k, |pages|);
    }
  }

  lemma {:induction false} OneMore(n: nat, held: nat, c: nat, k: nat, q: nat)
    requires 0 < n && EvenShares(n, k, held, q) && EvenShare(n, c, q)
    ensures EvenShares(n, k + 1, held + c, q)
  {
    TimesDistributes(n, held as real, c as real);
  }

  /** What m workers should hold of p pages at ratio r, so that one of them has r of the region: all but
      the shares of the n - m other nodes in the 1 - r that one worker leaves to n - 1. */
  function WorkersIdeal(p: nat, n: nat, m: nat, r: real): real
    requires 2 <= n && m <= n
  {
    p as real - (n - m) as real * Times(p, 1.0 - r) / (n - 1) as real
  }

  lemma {:induction false} OneWorkerIdeal(p: nat, n: nat, r: real)
    requires 2 <= n
    ensures WorkersIdeal(p, n, 1, r) == Times(p, r)
  {
    var x, m := Times(p, 1.0 - r), (n - 1) as real;
    TimesDistributes(p, 1.0, r);
    TimesOne(p);
    Quotient(x, m);
    Quotient(m * x, m);
    SameFactor(m, m * x / m, x);
  }

  lemma {:induction false} SameFactor(m: real, a: real, b: real)
    requires 0.0 < m && m * a == m * b
    ensures a == b
  {
  }

  /** n times the ideal is n regions less n - m ideal prefixes. */
  lemma {:induction false} IdealBalance(p: nat, n: nat, m: nat, r: real)
    requires 2 <= n && m <= n
    ensures n as real * WorkersIdeal(p, n, m, r)
         == n as real * p as real - (n - m) as real * Times(p, InterleaveRatio(n, r))
  {
    PrefixBalance(p, n, r);
    IdealProducts(n as real, (n - 1) as real, (n - m) as real, p as real, Times(p, InterleaveRatio(n, r)),
                  Times(p, 1.0 - r));
  }

  lemma {:induction false} PrefixBalance(p: nat, n: nat, r: real)
    requires 2 <= n
    ensures (n - 1) as real * Times(p, InterleaveRatio(n, r)) == n as real * Times(p, 1.0 - r)
  {
    RatioBalance(n, r);
    TimesCommutes(n - 1, p, InterleaveRatio(n, r));
    TimesCommutes(n, p, 1.0 - r);
    TimesIsProduct(n - 1, Times(p, InterleaveRatio(n, r)));
    TimesIsProduct(n, Times(p, 1.0 - r));
  }

  lemma {:induction false} IdealProducts(n: real, n1: real, k: real, p: real, z: real, u: real)
    requires 0.0 < n1 && n1 * z == n * u
    ensures n * (p - k * u / n1) == n * p - k * z
  {
    var v := k * u / n1;
    Quotient(k * u, n1);
    assert n1 * (n * v) == n * (n1 * v) == n * (k * u) == k * (n * u) == k * (n1 * z) == n1 * (k * z);
    SameFactor(n1, n * v, k * z);
    assert n * (p - v) == n * p - n * v;
  }

  /** The arithmetic of one step: the workers hold `got` of the q prefix pages and all p - q others. */
  lemma {:induction false} HoldsNear(p: nat, n: nat, m: nat, z: real, q: nat, got: nat, h: real)
    requires 2 <= n && 0 < m <= n && z - 1.0 < q as real <= z && q <= p && EvenShares(n, m, got, q)
    requires n as real * h == n as real * p as real - (n - m) as real * z
    ensures h - m as real < (got + (p - q)) as real < h + (m + 1) as real
  {
    SharesAreProducts(n, m, q, got);
    Close(n as real, m as real, p as real, z, q as real, got as real, h);
  }

  /** The prefix is the ideal one, rounded down to a page. */
  lemma {:induction false} PrefixIsExact(p: nat, n: nat, r: real)
    requires 2 <= n && InRange(n, r)
    ensures var z := Times(p, InterleaveRatio(n, r)); z - 1.0 < PrefixPages(p, n, r) as real <= z
  {
    TimesMonotone(p, InterleaveRatio(n, r), 0.0);
    TimesDistributes(p, 0.0, 0.0);
  }

  lemma {:induction false} SharesAreProducts(n: nat, m: nat, q: nat, got: nat)
    requires 0 < n && EvenShares(n, m, got, q)
    ensures m as real * (q as real - (n as real - 1.0)) <= n as real * got as real
         <= m as real * (q as real + (n as real - 1.0))
  {
    TimesIsProduct(m, (q - (n - 1)) as real);
    TimesIsProduct(m, (q + n - 1) as real);
    TimesIsProduct(n, got as real);
    assert (q - (n - 1)) as real == q as real - (n as real - 1.0);
    assert (q + n - 1) as real == q as real + (n as real - 1.0);
  }

  lemma {:induction false} Close(n: real, m: real, p: real, z: real, q: real, got: real, h: real)
    requires 2.0 <= n && 1.0 <= m <= n && z - 1.0 < q <= z
    requires m * (q - (n - 1.0)) <= n * got <= m * (q + (n - 1.0))
    requires n * h == n * p - (n - m) * z
    ensures h - m < got + (p - q) < h + (m + 1.0)
  {
    var d := got + (p - q) - h;
    Spread(n, m, p, z, q, got, h);
    Expanded(m, q, n);
    Fraction(n - m, z - q);
    Within(m, n, m * q, m * n, n * got, (n - m) * (z - q), n * d);
    Bounded(n, m, d, m * n, n * d);
  }

  lemma {:induction false} Expanded(m: real, q: real, n: real)
    ensures m * (q - (n - 1.0)) == m * q - m * n + m
    ensures m * (q + (n - 1.0)) == m * q + m * n - m
  {
  }

  lemma {:induction false} Within(m: real, n: real, mq: real, mn: real, ngot: real, rest: real, nd: real)
    requires 1.0 <= m && mq - mn + m <= ngot <= mq + mn - m && 0.0 <= rest <= n - m && nd == (ngot - mq) + rest
    ensures -mn < nd < mn + n
  {
  }

  lemma {:induction false} Spread(n: real, m: real, p: real, z: real, q: real, got: real, h: real)
    requires n * h == n * p - (n - m) * z
    ensures n * (got + (p - q) - h) == (n * got - m * q) + (n - m) * (z - q)
  {
    assert n * (got + (p - q) - h) == n * got + n * p - n * q - n * h;
    assert (n - m) * (z - q) == (n - m) * z - (n - m) * q;
    assert (n - m) * q == n * q - m * q;
  }

  lemma {:induction false} Bounded(n: real, m: real, d: real, mn: real, nd: real)
    requires 0.0 < n && mn == m * n && nd == n * d && -mn < nd < mn + n
    ensures -m < d < m + 1.0
  {
    if d <= -m { Grows(n, d, -m); }
    if d >= m + 1.0 { Grows(n, m + 1.0, d); }
  }

  lemma {:induction false} Fraction(a: real, e: real)
    requires 0.0 <= a && 0.0 <= e <= 1.0
    ensures 0.0 <= a * e <= a
  {
  }

  lemma {:induction false} Grows(n: real, a: real, b: real)
    requires 0.0 <= n && a <= b
    ensures n * a <= n * b
  {
  }

  lemma {:induction false} HoldsIdeal(p: nat, n: nat, m: nat, r: real, q: nat, got: nat)
    requires 2 <= n && 0 < m <= n && InRange(n, r) && q == PrefixPages(p, n, r) && q <= p && EvenShares(n, m, got, q)
    ensures WorkersIdeal(p, n, m, r) - m as real < (got + (p - q)) as real
          < WorkersIdeal(p, n, m, r) + (m + 1) as real
  {
    IdealBalance(p, n, m, r);
    PrefixIsExact(p, n, r);
    HoldsNear(p, n, m, Times(p, InterleaveRatio(n, r)), q, got, WorkersIdeal(p, n, m, r));
  }

  lemma {:induction false} HeadHolds(n: nat, t: Turn, q: nat, ws: seq<int>)
    requires 0 < n && Serves(t, AllNodes(n)) && Elements(ws) <= AllNodes(n)
    ensures EvenShares(n, |ws|, Together(Deal(0, q, t), ws), q)
  {
    AllNodesSize(n);
    DealtEvenly(0, q, t, AllNodes(n));
    forall i | 0 <= i < |ws| ensures EvenShare(n, multiset(Deal(0, q, t))[ws[i]], q) {
      assert ws[i] in Elements(ws);
    }
    TogetherEven(Deal(0, q, t), ws, n);
  }

  lemma {:induction false} RestHolds(rest: seq<int>, ws: seq<int>)
    requires Distinct(ws) && EvenlyOver(rest, Elements(ws))
    ensures Together(rest, ws) == |rest|
  {
    forall x | x in rest ensures x in ws {
      assert multiset(rest)[x] > 0;
      assert x in Elements(ws);
    }
    TogetherAll(rest, ws);
  }

  /** What m workers, listed in any order, hold of a region cut at q. */
  lemma {:induction false} CutHolds(p: nat, n: nat, t: Turn, after: seq<int>, q: nat, ws: seq<int>, r: real)
    requires 2 <= n && Serves(t, AllNodes(n)) && InRange(n, r) && q == PrefixPages(p, n, r)
    requires ws != [] && Distinct(ws) && Elements(ws) <= AllNodes(n) && |ws| <= n
    requires CutAt(Deal(0, p, t), after, q, Elements(ws))
    ensures WorkersIdeal(p, n, |ws|, r) - |ws| as real < Together(after, ws) as real
          < WorkersIdeal(p, n, |ws|, r) + (|ws| + 1) as real
  {
    var head, rest := after[..q], after[q..];
    assert head == Deal(0, q, t);
    HeadHolds(n, t, q, ws);
    RestHolds(rest, ws);
    TogetherAdds(head, rest, ws);
    assert after == head + rest;
    HoldsIdeal(p, n, |ws|, r, q, Together(head, ws));
  }

  /** The workers in a list. */
  function WorkerList(workers: int): (ws: seq<int>)
    ensures Distinct(ws)
  {
    if workers == 1 then [0]
    else if workers == 2 then [0, 1]
    else if workers == 3 then [1, 2, 3]
    else if workers == 4 then [0, 1, 2, 3]
    else []
  }

  lemma {:induction false} TogetherMore(pages: seq<int>, ws: seq<int>, w: int)
    ensures Together(pages, ws + [w]) == Together(pages, ws) + multiset(pages)[w]
  {
    assert (ws + [w])[..|ws|] == ws;
  }

  lemma {:induction false} TogetherFirst(pages: seq<int>)
    ensures Together(pages, [0]) == multiset(pages)[0]
    ensures Together(pages, [0, 1]) == multiset(pages)[0] + multiset(pages)[1]
    ensures Together(pages, [0, 1, 2, 3])
         == multiset(pages)[0] + multiset(pages)[1] + multiset(pages)[2] + multiset(pages)[3]
  {
    assert [] + [0] == [0] && [0] + [1] == [0, 1] && [0, 1] + [2] == [0, 1, 2] && [0, 1, 2] + [3] == [0, 1, 2, 3];
    TogetherMore(pages, [], 0);
    TogetherMore(pages, [0], 1);
    TogetherMore(pages, [0, 1], 2);
    TogetherMore(pages, [0, 1, 2], 3);
  }

  lemma {:induction false} TogetherOthers(pages: seq<int>)
    ensures Together(pages, [1, 2, 3]) == multiset(pages)[1] + multiset(pages)[2] + multiset(pages)[3]
  {
    assert [] + [1] == [1] && [1] + [2] == [1, 2] && [1, 2] + [3] == [1, 2, 3];
    TogetherMore(pages, [], 1);
    TogetherMore(pages, [1], 2);
    TogetherMore(pages, [1, 2], 3);
  }

  lemma {:induction false} WorkersListed(workers: int)
    ensures Elements(WorkerList(workers)) == WorkerNodes(workers)
    ensures 1 <= workers <= 4 ==> |WorkerList(workers)| == workers
  {
  }

  /** What one to four workers hold together of p pages is what the ratio gives them: less than a page for each
      worker too few, and less than a page for each and one more too many. */
  ghost predicate WorkersHold(pages: seq<int>, n: nat, workers: int, r: real)
    requires 2 <= n && 1 <= workers <= 4 && workers <= n
  {
    var held := multiset(pages);
    var together := if workers == 1 then held[0]
                    else if workers == 2 then held[0] + held[1]
                    else if workers == 3 then held[1] + held[2] + held[3]
                    else held[0] + held[1] + held[2] + held[3];
    WorkersIdeal(|pages|, n, workers, r) - workers as real < together as real
    < WorkersIdeal(|pages|, n, workers, r) + (workers + 1) as real
  }

  lemma {:induction false} HoldFromList(pages: seq<int>, n: nat, workers: int, r: real)
    requires 2 <= n && 1 <= workers <= 4 && workers <= n
    requires WorkersIdeal(|pages|, n, workers, r) - workers as real < Together(pages, WorkerList(workers)) as real
           < WorkersIdeal(|pages|, n, workers, r) + (workers + 1) as real
    ensures WorkersHold(pages, n, workers, r)
  {
    TogetherFirst(pages);
    TogetherOthers(pages);
  }

  /** A single worker holds the ratio of the region. */
  lemma {:induction false} OneWorkerHolds(pages: seq<int>, n: nat, r: real)
    requires 2 <= n
    ensures WorkersHold(pages, n, 1, r)
       <==> Times(|pages|, r) - 1.0 < multiset(pages)[0] as real < Times(|pages|, r) + 2.0
  {
    OneWorkerIdeal(|pages|, n, r);
  }

  /** Starting from pages interleaved over all n nodes, after every step of an increasing sweep, whatever
      the kernel chooses for its call, the workers together hold what the ratio gives them. */
  lemma {:induction false} SweepCallsHoldRatio(p: nat, t: Turn, s: Sweep)
    requires Runs(p, s) && Increasing(s.ratios) && s.ratios != [] && 1 <= s.workers <= 4
    requires Serves(t, AllNodes(s.n)) && s.workers <= s.n && (s.workers == 3 ==> 4 <= s.n)
    ensures WorkersHold(Executed(Deal(0, p, t), s), s.n, s.workers, LastRatio(p, s))
  {
    var pages, r := Deal(0, p, t), LastRatio(p, s);
    var after, ws := Executed(pages, s), WorkerList(s.workers);
    SweepKeepsPrefix(pages, s);
    WorkersListed(s.workers);
    CutHolds(p, s.n, t, after, PrefixPages(p, s.n, r), ws, r);
    HoldFromList(after, s.n, s.workers, r);
  }
}
