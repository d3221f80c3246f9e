/** Pages dealt in rounds.

    Every placement routine cuts a region into consecutive chunks and deals each chunk round-robin
    over a set of nodes.  This module holds what the routines share: where the cuts fall, how many
    pages one round gives to one node, and how far the running totals can stray from the ideal. */
module Dealing {
  import Alignment

  function Min(a: nat, b: nat): nat {
    if a < b then a else b
  }

  /** Pages of the default node. */
  function Zeros(n: nat): (z: seq<int>)
    ensures |z| == n && forall i :: 0 <= i < n ==> z[i] == 0
  {
    if n == 0 then [] else Zeros(n - 1) + [0]
  }

  // ----- cuts -----

  function Sum(s: seq<nat>, i: nat): nat
    requires i <= |s|
  {
    if i == 0 then 0 else Sum(s, i - 1) + s[i - 1]
  }

  function RealSum(y: seq<real>, i: nat): real
    requires i <= |y|
  {
    if i == 0 then 0.0 else RealSum(y, i - 1) + y[i - 1]
  }

  /** Where round `i` begins when each round takes what it wants until `cap` is used up. */
  function Cut(want: seq<nat>, cap: nat, i: nat): nat
    requires i <= |want|
  {
    Min(cap, Sum(want, i))
  }

  /** The size of round `i`. */
  function Chunk(want: seq<nat>, cap: nat, i: nat): (c: nat)
    requires i < |want|
    ensures c <= want[i]
    ensures Sum(want, i + 1) <= cap ==> c == want[i]
    ensures Sum(want, i) <= cap < Sum(want, i + 1) ==> c == cap - Sum(want, i)
  {
    Cut(want, cap, i + 1) - Cut(want, cap, i)
  }

  /** The clamp of the source: a round takes what it wants or what is left. */
  lemma {:induction false} CutStep(want: seq<nat>, cap: nat, i: nat)
    requires i < |want|
    ensures Cut(want, cap, i) <= cap
    ensures Chunk(want, cap, i) == Min(want[i], cap - Cut(want, cap, i))
  {
  }

  /** How many of `n` nodes are still in play in round `i`. */
  function Left(n: nat, i: nat): nat
    requires i <= n
  {
    n - i
  }

  // ----- one round -----

  /** The order in which a round serves its nodes, and where in that order it starts. */
  datatype Turn = Turn(order: seq<int>, phase: nat)

  ghost predicate Distinct(s: seq<int>) {
    forall i, j :: 0 <= i < j < |s| ==> Differ(s, i, j)
  }

  ghost predicate Differ(s: seq<int>, i: nat, j: nat)
    requires i < |s| && j < |s|
  {
    s[i] != s[j]
  }

  lemma {:induction false} DistinctSuffix(s: seq<int>, k: nat)
    requires Distinct(s) && k <= |s|
    ensures Distinct(s[k..])
  {
    var t := s[k..];
    forall i, j | 0 <= i < j < |t| ensures Differ(t, i, j) {
      assert Differ(s, k + i, k + j);
    }
  }

  lemma {:induction false} DistinctPrefix(s: seq<int>, k: nat)
    requires Distinct(s) && k <= |s|
    ensures Distinct(s[..k])
    ensures k < |s| ==> s[k] !in s[..k]
  {
    var t := s[..k];
    forall i, j | 0 <= i < j < |t| ensures Differ(t, i, j) {
      assert Differ(s, i, j);
    }
    forall i | k < |s| && 0 <= i < |t| ensures t[i] != s[k] {
      assert Differ(s, i, k);
    }
  }

  /** Page `p` goes to the node whose turn it is. */
  function Deal(lo: nat, hi: nat, t: Turn): (pages: seq<int>)
    requires lo <= hi && t.order != []
    ensures |pages| == hi - lo
  {
    seq(hi - lo, j requires 0 <= j < hi - lo => t.order[(lo + j + t.phase) % |t.order|])
  }

  /** How many of the numbers below `x` leave remainder `m` modulo `a`. */
  function Served(x: nat, a: nat, m: nat): nat
    requires m < a
  {
    x / a + (if x % a > m then 1 else 0)
  }

  lemma {:induction false} ServedStep(x: nat, a: nat, m: nat)
    requires m < a
    ensures Served(x + 1, a, m) == Served(x, a, m) + (if x % a == m then 1 else 0)
  {
    var q, r := x / a, x % a;
    assert x == q * a + r;
    if r + 1 < a {
      Alignment.DivModUnique(x + 1, a, q, r + 1);
    } else {
      assert (q + 1) * a == q * a + a;
      Alignment.DivModUnique(x + 1, a, q + 1, 0);
    }
  }

  /** `got` of `c` pages, dealt evenly to `a` nodes up to the rounding of one page. */
  ghost predicate EvenShare(a: nat, got: int, c: nat) {
    (c - (a - 1)) as real <= Times(a, got as real) <= (c + a - 1) as real
  }

  /** The count for one node, in closed form, and within one page of an even share. */
  lemma {:induction false} DealShare(lo: nat, hi: nat, t: Turn, m: nat)
    requires lo <= hi && m < |t.order| && Distinct(t.order)
    ensures var c := multiset(Deal(lo, hi, t))[t.order[m]];
            && c == Served(hi + t.phase, |t.order|, m) - Served(lo + t.phase, |t.order|, m)
            && EvenShare(|t.order|, c, hi - lo)
  {
    DealCount(lo, hi, t, m);
    ServedShare(lo + t.phase, hi + t.phase, |t.order|, m, multiset(Deal(lo, hi, t))[t.order[m]]);
  }

  lemma {:induction false} ServedShare(x: nat, x': nat, a: nat, m: nat, c: int)
    requires m < a && x <= x' && c == Served(x', a, m) - Served(x, a, m)
    ensures EvenShare(a, c, x' - x)
  {
    ServedEven(x, a, m);
    ServedEven(x', a, m);
    SpreadShare(Served(x, a, m), Served(x', a, m), x - m, x' - m, a);
  }

  lemma {:induction false} SpreadShare(s: nat, s': nat, x: int, x': int, a: nat)
    requires x <= x' && x <= a * s <= x + a - 1 && x' <= a * s' <= x' + a - 1
    ensures EvenShare(a, s' - s, x' - x)
  {
    TimesIsProduct(a, (s' - s) as real);
    assert a * (s' - s) == a * s' - a * s;
    assert (a * (s' - s)) as real == a as real * (s' - s) as real;
  }

  lemma {:induction false} ServedEven(x: nat, a: nat, m: nat)
    requires m < a
    ensures x - m <= a * Served(x, a, m) <= x + a - 1 - m
  {
    var q, r := x / a, x % a;
    assert x == a * q + r;
    assert a * (q + 1) == a * q + a;
  }

  lemma {:induction false} DealCount(lo: nat, hi: nat, t: Turn, m: nat)
    requires lo <= hi && m < |t.order| && Distinct(t.order)
    ensures multiset(Deal(lo, hi, t))[t.order[m]]
         == Served(hi + t.phase, |t.order|, m) - Served(lo + t.phase, |t.order|, m)
    decreases hi
  {
    if lo < hi {
      DealCount(lo, hi - 1, t, m);
      ServedStep(hi - 1 + t.phase, |t.order|, m);
      var r := (hi - 1 + t.phase) % |t.order|;
      var n := t.order[r];
      assert r < m ==> Differ(t.order, r, m);
      assert m < r ==> Differ(t.order, m, r);
      assert Deal(lo, hi, t) == Deal(lo, hi - 1, t) + [n];
    }
  }

  lemma {:induction false} DealAvoids(lo: nat, hi: nat, t: Turn, n: int)
    requires lo <= hi && t.order != [] && n !in t.order
    ensures multiset(Deal(lo, hi, t))[n] == 0
  {
    var d := Deal(lo, hi, t);
    forall j | 0 <= j < |d| ensures d[j] != n {
      assert d[j] in t.order;
    }
    assert n !in d;
  }

  // ----- all rounds -----

  /** Round i serves the nodes from position i on, in any order and from any starting point. */
  ghost predicate TurnsOver(turns: seq<Turn>, ids: seq<int>) {
    && |turns| == |ids|
    && forall i :: 0 <= i < |ids| ==> TurnOver(turns[i], ids[i..])
  }

  ghost predicate TurnOver(t: Turn, ids: seq<int>) {
    && Distinct(t.order)
    && |t.order| == |ids|
    && (forall n :: n in t.order <==> n in ids)
  }

  ghost predicate SomeoneServed(turns: seq<Turn>) {
    forall i :: 0 <= i < |turns| ==> turns[i].order != []
  }

  /** The owners of the first Cut(i) pages. */
  function Layout(want: seq<nat>, cap: nat, turns: seq<Turn>, i: nat): (pages: seq<int>)
    requires i <= |want| == |turns|
    requires SomeoneServed(turns)
    ensures |pages| == Cut(want, cap, i)
  {
    if i == 0 then []
    else Layout(want, cap, turns, i - 1)
         + Deal(Cut(want, cap, i - 1), Cut(want, cap, i), turns[i - 1])
  }

  /** What node `n` owns once `i` rounds are dealt. */
  function Pages(want: seq<nat>, cap: nat, turns: seq<Turn>, i: nat, n: int): nat
    requires i <= |want| == |turns|
    requires SomeoneServed(turns)
  {
    multiset(Layout(want, cap, turns, i))[n]
  }

  function Gain(got: seq<int>, i: nat): int
    requires i + 1 < |got|
  {
    got[i + 1] - got[i]
  }

  /** The running page count of node k: each round deals it an even share, until the round in which
      it drops out. */
  ghost predicate Tally(got: seq<int>, want: seq<nat>, cap: nat, k: nat) {
    && |got| == |want| + 1
    && got[0] == 0
    && forall i :: 0 <= i < |want| ==> TallyStep(got, want, cap, k, i)
  }

  ghost predicate TallyStep(got: seq<int>, want: seq<nat>, cap: nat, k: nat, i: nat)
    requires i + 1 < |got| && i < |want|
  {
    if k < i then Gain(got, i) == 0
    else EvenShare(Left(|want|, i), Gain(got, i), Chunk(want, cap, i))
  }

  /** One round of `c` pages gives an even share to each of the `a` nodes it serves and nothing to
      the others. */
  lemma {:induction false} DealTo(lo: nat, hi: nat, t: Turn, ids: seq<int>, n: int, a: nat, c: nat, got: int)
    requires lo <= hi && TurnOver(t, ids) && t.order != []
    requires a == |ids| && c == hi - lo && got == multiset(Deal(lo, hi, t))[n]
    ensures if n in ids then EvenShare(a, got, c) else got == 0
  {
    if n in ids {
      assert n in t.order;
      var m :| 0 <= m < |t.order| && t.order[m] == n;
      DealShare(lo, hi, t, m);
    } else {
      DealAvoids(lo, hi, t, n);
    }
  }

  lemma {:induction false} InSuffix(ids: seq<int>, i: nat, k: nat)
    requires i <= |ids| && k < |ids| && Distinct(ids)
    ensures ids[k] in ids[i..] <==> i <= k
  {
    if i <= k {
      assert ids[i..][k - i] == ids[k];
    } else {
      forall j | i <= j < |ids| ensures ids[j] != ids[k] {
        assert Differ(ids, k, j);
      }
    }
  }

  lemma {:induction false} RoundGain(want: seq<nat>, cap: nat, t: Turn, i: nat, ids: seq<int>, k: nat, gain: int)
    requires i < |want| == |ids| && k < |ids| && Distinct(ids) && t.order != [] && TurnOver(t, ids[i..])
    requires Cut(want, cap, i) <= Cut(want, cap, i + 1)
    requires gain == multiset(Deal(Cut(want, cap, i), Cut(want, cap, i + 1), t))[ids[k]]
    ensures if k < i then gain == 0 else EvenShare(Left(|want|, i), gain, Chunk(want, cap, i))
  {
    InSuffix(ids, i, k);
    DealTo(Cut(want, cap, i), Cut(want, cap, i + 1), t, ids[i..], ids[k], Left(|want|, i), Chunk(want, cap, i), gain);
  }

  lemma {:induction false} PagesAdded(want: seq<nat>, cap: nat, turns: seq<Turn>, i: nat, n: int)
    requires i < |want| == |turns|
    requires SomeoneServed(turns)
    ensures Pages(want, cap, turns, i + 1, n) - Pages(want, cap, turns, i, n)
         == multiset(Deal(Cut(want, cap, i), Cut(want, cap, i + 1), turns[i]))[n]
  {
  }

  /** The count after one more round, from the count before it. */
  lemma {:induction false} PagesGain(want: seq<nat>, cap: nat, turns: seq<Turn>, i: nat, ids: seq<int>, k: nat, before: int)
      returns (after: int)
    requires i < |want| == |ids| && k < |ids| && Distinct(ids) && TurnsOver(turns, ids)
    requires SomeoneServed(turns) && before == Pages(want, cap, turns, i, ids[k])
    ensures after == Pages(want, cap, turns, i + 1, ids[k])
    ensures if k < i then after == before else EvenShare(Left(|want|, i), after - before, Chunk(want, cap, i))
  {
    PagesAdded(want, cap, turns, i, ids[k]);
    after := Pages(want, cap, turns, i + 1, ids[k]);
    CutStep(want, cap, i);
    assert TurnOver(turns[i], ids[i..]);
    RoundGain(want, cap, turns[i], i, ids, k, after - before);
  }

  /** A tally of the first i rounds. */
  ghost predicate TallyTo(got: seq<int>, want: seq<nat>, cap: nat, k: nat, i: nat)
    requires i <= |want|
  {
    && |got| == i + 1
    && got[0] == 0
    && forall j :: 0 <= j < i ==> TallyStep(got, want, cap, k, j)
  }

  lemma {:induction false} TallyMore(got: seq<int>, want: seq<nat>, cap: nat, k: nat, i: nat, next: int)
    requires i < |want| && TallyTo(got, want, cap, k, i)
    requires if k < i then next == got[i] else EvenShare(Left(|want|, i), next - got[i], Chunk(want, cap, i))
    ensures TallyTo(got + [next], want, cap, k, i + 1) && (got + [next])[i + 1] == next
  {
    var more := got + [next];
    forall j | 0 <= j < i + 1 ensures TallyStep(more, want, cap, k, j) {
      if j < i {
        assert TallyStep(got, want, cap, k, j);
        assert Gain(more, j) == Gain(got, j);
      }
    }
  }

  lemma {:induction false} NoPages(want: seq<nat>, cap: nat, turns: seq<Turn>, n: int)
    requires |want| == |turns| && SomeoneServed(turns)
    ensures Pages(want, cap, turns, 0, n) == 0
  {
  }

  lemma {:induction false} PagesTally(want: seq<nat>, cap: nat, turns: seq<Turn>, ids: seq<int>, k: nat, i: nat)
      returns (got: seq<int>, c: int)
    requires i <= |want| == |ids| && k < |ids| && Distinct(ids) && TurnsOver(turns, ids)
    requires SomeoneServed(turns)
    ensures TallyTo(got, want, cap, k, i) && got[i] == c
    ensures c == Pages(want, cap, turns, i, ids[k])
  {
    if i == 0 {
      got, c := [0], 0;
      NoPages(want, cap, turns, ids[k]);
    } else {
      var before, b := PagesTally(want, cap, turns, ids, k, i - 1);
      c := PagesGain(want, cap, turns, i - 1, ids, k, b);
      TallyMore(before, want, cap, k, i - 1, c);
      got := before + [c];
    }
  }

  /** A page of round i has the node whose turn it is in that round. */
  lemma {:induction false} LayoutAt(want: seq<nat>, cap: nat, turns: seq<Turn>, i: nat, n: nat, j: nat)
    requires i < n <= |want| == |turns| && SomeoneServed(turns)
    requires Cut(want, cap, i) <= j < Cut(want, cap, i + 1)
    ensures j < |Layout(want, cap, turns, n)|
    ensures Layout(want, cap, turns, n)[j] == turns[i].order[(j + turns[i].phase) % |turns[i].order|]
  {
    SumMonotone(want, i + 1, n - 1 + 1);
    if i < n - 1 {
      SumMonotone(want, i + 1, n - 1);
      LayoutAt(want, cap, turns, i, n - 1, j);
    }
  }

  // ----- the ideal -----

  ghost predicate Ascending(y: seq<real>) {
    && (forall i :: 0 <= i < |y| ==> 0.0 <= y[i])
    && (forall i, j :: 0 <= i <= j < |y| ==> y[i] <= y[j])
  }

  /** The share every node still in play has been promised before round i. */
  function Level(y: seq<real>, i: nat): real
    requires i <= |y|
  {
    if i == 0 then 0.0 else y[i - 1]
  }

  function Rise(y: seq<real>, i: nat): real
    requires i < |y|
  {
    y[i] - Level(y, i)
  }

  /** n * x, written as repeated addition: every product the placement code takes is of a count and a
      real, and in this form it stays out of the way of proofs that do not need its value. */
  function Times(n: nat, x: real): real {
    if n == 0 then 0.0 else Times(n - 1, x) + x
  }

  lemma {:induction false} TimesIsProduct(n: nat, x: real)
    ensures Times(n, x) == n as real * x
  {
    if n > 0 {
      TimesIsProduct(n - 1, x);
      assert n as real == (n - 1) as real + 1.0;
      assert n as real * x == (n - 1) as real * x + x;
    }
  }

  /** The ideal size of round i: the rise of the level, once for each node still in play. */
  function Ideal(y: seq<real>, i: nat): real
    requires i < |y|
  {
    Times(Left(|y|, i), Rise(y, i))
  }

  /** Summation by parts: the ideal rounds so far have served the first i nodes in full and all the
      others up to the level. */
  function Dealt(y: seq<real>, i: nat): real
    requires i <= |y|
  {
    RealSum(y, i) + Times(Left(|y|, i), Level(y, i))
  }

  lemma {:induction false} TimesDistributes(n: nat, x: real, l: real)
    ensures Times(n, x - l) == Times(n, x) - Times(n, l)
    ensures Times(n, x + l) == Times(n, x) + Times(n, l)
    ensures Times(n, 0.0) == 0.0
  {
    if n > 0 { TimesDistributes(n - 1, x, l); }
  }

  lemma {:induction false} TimesOne(n: nat)
    ensures Times(n, 1.0) == n as real
  {
    if n > 0 {
      TimesOne(n - 1);
      assert n as real == (n - 1) as real + 1.0;
    }
  }

  lemma {:induction false} TimesMonotone(n: nat, x: real, l: real)
    requires l <= x
    ensures Times(n, l) <= Times(n, x)
  {
    if n > 0 { TimesMonotone(n - 1, x, l); }
  }

  lemma {:induction false} TimesCancel(n: nat, x: real, l: real)
    ensures Times(n, x) < Times(n, l) ==> x < l
  {
    if l <= x { TimesMonotone(n, x, l); }
  }

  lemma {:induction false} TimesCompare(n: nat, x: real, l: real)
    requires 0 < n
    ensures Times(n, x) <= Times(n, l) <==> x <= l
  {
    if x <= l {
      TimesMonotone(n, l, x);
    } else {
      TimesMonotone(n - 1, x, l);
    }
  }

  lemma {:induction false} TimesCommutes(n: nat, m: nat, x: real)
    ensures Times(n, Times(m, x)) == Times(m, Times(n, x))
  {
    if n > 0 {
      TimesCommutes(n - 1, m, x);
      TimesDistributes(m, Times(n - 1, x), x);
    } else {
      TimesDistributes(m, 0.0, 0.0);
    }
  }

  lemma {:induction false} DealtStep(y: seq<real>, i: nat)
    requires i < |y|
    ensures Dealt(y, i + 1) == Dealt(y, i) + Ideal(y, i)
    ensures Dealt(y, 0) == 0.0
  {
    TimesDistributes(Left(|y|, i), y[i], Level(y, i));
    TimesDistributes(|y|, 0.0, 0.0);
  }

  /** Each round is sized to within a page of the ideal. */
  ghost predicate WithinAPage(want: seq<nat>, y: seq<real>) {
    && |want| == |y|
    && forall i :: 0 <= i < |y| ==> RoundWithinAPage(want, y, i)
  }

  ghost predicate RoundWithinAPage(want: seq<nat>, y: seq<real>, i: nat)
    requires i < |want| == |y|
  {
    Ideal(y, i) - 1.0 < want[i] as real < Ideal(y, i) + 1.0
  }

  lemma {:induction false} SumWithinRounds(want: seq<nat>, y: seq<real>, i: nat)
    requires WithinAPage(want, y) && i <= |y|
    ensures Dealt(y, i) - i as real <= Sum(want, i) as real <= Dealt(y, i) + i as real
    ensures 0 < i ==> Dealt(y, i) - i as real < Sum(want, i) as real < Dealt(y, i) + i as real
  {
    TimesDistributes(|y|, 0.0, 0.0);
    if i > 0 {
      SumWithinRounds(want, y, i - 1);
      assert RoundWithinAPage(want, y, i - 1);
      DealtStep(y, i - 1);
    }
  }

  lemma {:induction false} SumMonotone(want: seq<nat>, i: nat, j: nat)
    requires i <= j <= |want|
    ensures Sum(want, i) <= Sum(want, j)
  {
    if i < j { SumMonotone(want, i, j - 1); }
  }

  /** The nodes from m on, of which k is one, are owed at least y[k] and y[m] for each other one. */
  lemma {:induction false} SuffixAtLeast(y: seq<real>, m: nat, k: nat, j: nat)
    requires Ascending(y) && m <= k < |y| && m <= j <= |y|
    ensures RealSum(y, j) - RealSum(y, m)
         >= Times(j - m, y[m]) + (if k < j then y[k] - y[m] else 0.0)
  {
    if j > m {
      SuffixAtLeast(y, m, k, j - 1);
      assert y[m] <= y[j - 1];
      TimesDistributes(j - m, y[m], 0.0);
    }
  }

  // ----- proportionality -----

  /** A round served to a nodes, not larger than wanted, gives each less than one page too many. */
  lemma {:induction false} ShareAbove(a: nat, got: int, c: nat, want: nat, rise: real)
    requires 0 < a && EvenShare(a, got, c) && c <= want
    requires want as real < Times(a, rise) + 1.0
    ensures got as real < rise + 1.0
  {
    TimesDistributes(a, rise, 1.0);
    TimesOne(a);
    TimesCancel(a, got as real, rise + 1.0);
  }

  /** A round served to a nodes, as large as wanted, gives each less than one page too few. */
  lemma {:induction false} ShareBelow(a: nat, got: int, want: nat, rise: real)
    requires 0 < a && EvenShare(a, got, want)
    requires want as real > Times(a, rise) - 1.0
    ensures got as real > rise - 1.0
  {
    TimesDistributes(a, rise, 1.0);
    TimesOne(a);
    TimesCancel(a, rise - 1.0, got as real);
  }

  lemma {:induction false} TallyRiseAbove(got: seq<int>, want: seq<nat>, y: seq<real>, cap: nat, k: nat, i: nat)
    requires WithinAPage(want, y) && Tally(got, want, cap, k) && i <= k < |y|
    ensures got[i + 1] as real < got[i] as real + (y[i] - Level(y, i)) + 1.0
  {
    assert TallyStep(got, want, cap, k, i) && RoundWithinAPage(want, y, i);
    ShareAbove(Left(|y|, i), Gain(got, i), Chunk(want, cap, i), want[i], Rise(y, i));
  }

  lemma {:induction false} TallyRiseBelow(got: seq<int>, want: seq<nat>, y: seq<real>, cap: nat, k: nat, i: nat)
    requires WithinAPage(want, y) && Tally(got, want, cap, k) && i <= k < |y|
    requires Sum(want, i + 1) <= cap
    ensures got[i + 1] as real > got[i] as real + (y[i] - Level(y, i)) - 1.0
  {
    assert TallyStep(got, want, cap, k, i) && RoundWithinAPage(want, y, i);
    ShareBelow(Left(|y|, i), Gain(got, i), want[i], Rise(y, i));
  }

  /** No node is ever more than a page per round above what the level promises it. */
  lemma {:induction false} TallyAbove(got: seq<int>, want: seq<nat>, y: seq<real>, cap: nat, k: nat, i: nat)
    requires WithinAPage(want, y) && Tally(got, want, cap, k) && k < |y| && i <= k + 1
    ensures got[i] as real <= Level(y, i) + i as real
    ensures 0 < i ==> got[i] as real < Level(y, i) + i as real
  {
    if i > 0 {
      TallyAbove(got, want, y, cap, k, i - 1);
      TallyRiseAbove(got, want, y, cap, k, i - 1);
    }
  }

  /** While the region lasts, no node is more than a page per round below it either. */
  lemma {:induction false} TallyBelow(got: seq<int>, want: seq<nat>, y: seq<real>, cap: nat, k: nat, i: nat)
    requires WithinAPage(want, y) && Tally(got, want, cap, k) && k < |y| && i <= k + 1
    requires Sum(want, i) <= cap
    ensures got[i] as real >= Level(y, i) - i as real
    ensures 0 < i ==> got[i] as real > Level(y, i) - i as real
  {
    if i > 0 {
      TallyBelow(got, want, y, cap, k, i - 1);
      TallyRiseBelow(got, want, y, cap, k, i - 1);
    }
  }

  lemma {:induction false} NoShareIsNegative(a: nat, got: int, c: nat)
    requires 0 < a && EvenShare(a, got, c)
    ensures 0 <= got
  {
    TimesDistributes(a, 0.0, 1.0);
    TimesOne(a);
    TimesCancel(a, -1.0, got as real);
  }

  /** Counts never drop, and later rounds leave node k alone. */
  lemma {:induction false} TallySettles(got: seq<int>, want: seq<nat>, cap: nat, k: nat, i: nat, j: nat)
    requires Tally(got, want, cap, k) && i <= j <= |want|
    ensures got[i] <= got[j]
    ensures k < i ==> got[i] == got[j]
  {
    if i < j {
      TallySettles(got, want, cap, k, i, j - 1);
      assert TallyStep(got, want, cap, k, j - 1);
      if j - 1 <= k {
        NoShareIsNegative(Left(|want|, j - 1), Gain(got, j - 1), Chunk(want, cap, j - 1));
      }
    }
  }

  /** The round in which the region runs out.  Here l is what earlier rounds and an excess of the weights
      may have taken away, a the nodes it serves, c its pages, got those of node k, and z, zm what nodes k
      and m are still owed. */
  lemma {:induction false} LastRound(l: real, a: nat, c: nat, got: int, z: real, zm: real)
    requires 0 < a && EvenShare(a, got, c)
    requires c as real + l >= z + Times(a - 1, zm)
    requires c as real < Times(a, zm) + 1.0
    requires a == 1 ==> z == zm
    ensures z - got as real <= l + (if a == 1 then 0.0 else 2.0)
  {
    if a > 1 {
      var b, x := z - l - 2.0, c as real;
      var rest := Times(a - 1, zm);
      TimesMonotone(a, x + l - rest, z);
      TimesDistributes(a, x + l, rest);
      TimesDistributes(a, x, l);
      TimesCommutes(a, a - 1, zm);
      TimesMonotone(a - 1, Times(a, zm), x - 1.0);
      TimesDistributes(a - 1, x, 1.0);
      TimesDistributes(a, z - l, 2.0);
      TimesDistributes(a, z, l);
      TimesDistributes(a, 1.0, 1.0);
      TimesOne(a);
      TimesOne(a - 1);
      TimesCancel(a, b, got as real);
    } else {
      assert Times(1, got as real) == Times(0, got as real) + got as real;
    }
  }

  /** Once the region has run out no node is missing 2N - 1 pages, or as many more as the shares exceed
      the region. */
  lemma {:induction false} TallyAfterLastRound(got: seq<int>, want: seq<nat>, y: seq<real>, cap: nat,
                                               excess: real, k: nat, m: nat)
    requires WithinAPage(want, y) && Ascending(y) && RealSum(y, |y|) <= cap as real + excess && 0.0 <= excess
    requires Tally(got, want, cap, k)
    requires m <= k < |y| && Sum(want, m) <= cap < Sum(want, m + 1)
    ensures got[k + 1] as real > y[k] - (2 * |y| - 1) as real - excess
  {
    var a := Left(|y|, m);
    TallyBelow(got, want, y, cap, k, m);
    assert TallyStep(got, want, cap, k, m);
    TallySettles(got, want, cap, k, m + 1, k + 1);
    LastRoundBudget(want, y, cap, excess, k, m);
    var l := Level(y, m);
    LastRound(m as real + excess, a, cap - Sum(want, m), Gain(got, m), y[k] - l, y[m] - l);
  }

  /** What is left for the last round covers what its nodes are owed, up to a page per earlier round. */
  lemma {:induction false} LastRoundBudget(want: seq<nat>, y: seq<real>, cap: nat, excess: real, k: nat, m: nat)
    requires WithinAPage(want, y) && Ascending(y) && RealSum(y, |y|) <= cap as real + excess
    requires m <= k < |y| && Sum(want, m) <= cap < Sum(want, m + 1)
    ensures var l, c, a := Level(y, m), cap - Sum(want, m), Left(|y|, m);
            && c as real + (m as real + excess) >= y[k] - l + Times(a - 1, y[m] - l)
            && c as real < Times(a, y[m] - l) + 1.0
  {
    var a, l := Left(|y|, m), Level(y, m);
    SumWithinRounds(want, y, m);
    SuffixAtLeast(y, m, k, |y|);
    assert RoundWithinAPage(want, y, m);
    TimesDistributes(a, y[m], l);
    TimesDistributes(a, l, 0.0);
    TimesDistributes(a - 1, y[m], l);
  }

  /** The round in which the region runs out, if there is one among the first i. */
  lemma {:induction false} FindLastRound(want: seq<nat>, cap: nat, i: nat) returns (m: nat)
    requires i <= |want| && cap < Sum(want, i)
    ensures m < i && Sum(want, m) <= cap < Sum(want, m + 1)
  {
    if cap < Sum(want, i - 1) {
      m := FindLastRound(want, cap, i - 1);
    } else {
      m := i - 1;
    }
  }

  /** The main error bound.  Whatever the sizing, as long as each round is within a page of its ideal,
      node k gets fewer than k + 1 pages above its share and fewer than 2N - 1 below, or as many more
      below as the shares exceed the region; when the region does not run out before its last round, fewer
      than k + 1 below. */
  lemma {:induction false} Proportional(want: seq<nat>, y: seq<real>, cap: nat, excess: real, turns: seq<Turn>,
                                        ids: seq<int>, k: nat)
    requires WithinAPage(want, y) && Ascending(y) && RealSum(y, |y|) <= cap as real + excess && 0.0 <= excess
    requires |ids| == |y| && Distinct(ids) && TurnsOver(turns, ids)
    requires SomeoneServed(turns)
    requires k < |y|
    ensures var got := Pages(want, cap, turns, |y|, ids[k]) as real;
            && y[k] - (2 * |y| - 1) as real - excess < got < y[k] + (k + 1) as real
            && (Sum(want, k + 1) <= cap ==> y[k] - (k + 1) as real < got)
  {
    var got, c := PagesTally(want, cap, turns, ids, k, |want|);
    TallySettles(got, want, cap, k, k + 1, |y|);
    TallyAbove(got, want, y, cap, k, k + 1);
    if Sum(want, k + 1) <= cap {
      TallyBelow(got, want, y, cap, k, k + 1);
    } else {
      var m := FindLastRound(want, cap, k + 1);
      TallyAfterLastRound(got, want, y, cap, excess, k, m);
    }
  }
}
