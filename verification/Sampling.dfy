/** The stall-rate filter: sort the samples, drop the extremes at both ends, average the rest. */
module Sampling {
  import opened Dealing

  // ----- sorting -----

  ghost predicate Ordered(s: seq<real>) {
    forall i, j :: 0 <= i < j < |s| ==> s[i] <= s[j]
  }

  function Insert(x: real, s: seq<real>): (r: seq<real>)
    ensures |r| == |s| + 1
  {
    if s == [] || s[|s| - 1] <= x then s + [x]
    else Insert(x, s[..|s| - 1]) + [s[|s| - 1]]
  }

  /** Stands for std::sort; any sorting routine returns the same (see SortUnique). */
  function Sort(s: seq<real>): (r: seq<real>)
    ensures |r| == |s|
  {
    if s == [] then [] else Insert(s[|s| - 1], Sort(s[..|s| - 1]))
  }

  lemma {:induction false} InsertOrdered(x: real, s: seq<real>, top: real)
    requires Ordered(s) && x <= top && forall i :: 0 <= i < |s| ==> s[i] <= top
    ensures Ordered(Insert(x, s)) && forall i :: 0 <= i < |s| + 1 ==> Insert(x, s)[i] <= top
  {
    if s != [] && s[|s| - 1] > x {
      InsertOrdered(x, s[..|s| - 1], s[|s| - 1]);
    }
  }

  lemma {:induction false} SortOrdered(s: seq<real>)
    ensures Ordered(Sort(s))
  {
    if s != [] {
      var init, x := Sort(s[..|s| - 1]), s[|s| - 1];
      SortOrdered(s[..|s| - 1]);
      var top := if init == [] || init[|init| - 1] <= x then x else init[|init| - 1];
      InsertOrdered(x, init, top);
    }
  }

  lemma {:induction false} InsertPermutes(x: real, s: seq<real>)
    ensures multiset(Insert(x, s)) == multiset(s) + multiset{x}
  {
    if s != [] && s[|s| - 1] > x {
      InsertPermutes(x, s[..|s| - 1]);
      assert s == s[..|s| - 1] + [s[|s| - 1]];
    }
  }

  lemma {:induction false} SortPermutes(s: seq<real>)
    ensures multiset(Sort(s)) == multiset(s)
  {
    if s != [] {
      SortPermutes(s[..|s| - 1]);
      InsertPermutes(s[|s| - 1], Sort(s[..|s| - 1]));
      assert s == s[..|s| - 1] + [s[|s| - 1]];
    }
  }

  lemma {:induction false} SplitLast(s: seq<real>)
    requires s != []
    ensures multiset(s) == multiset(s[..|s| - 1]) + multiset{s[|s| - 1]}
  {
    assert s == s[..|s| - 1] + [s[|s| - 1]];
  }

  lemma {:induction false} LastAtMost(a: seq<real>, b: seq<real>)
    requires Ordered(b) && multiset(a) == multiset(b) && a != [] && b != []
    ensures a[|a| - 1] <= b[|b| - 1]
  {
    var x := a[|a| - 1];
    assert x in multiset(a);
    assert x in b;
    var i :| 0 <= i < |b| && b[i] == x;
  }

  /** Two ordered sequences with the same elements are equal. */
  lemma {:induction false} OrderedUnique(a: seq<real>, b: seq<real>)
    requires Ordered(a) && Ordered(b) && multiset(a) == multiset(b)
    ensures a == b
  {
    assert |multiset(a)| == |a| && |multiset(b)| == |b|;
    if a != [] {
      LastAtMost(a, b);
      LastAtMost(b, a);
      SplitLast(a);
      SplitLast(b);
      SameRest(multiset(a[..|a| - 1]), multiset(b[..|b| - 1]), a[|a| - 1]);
      OrderedUnique(a[..|a| - 1], b[..|b| - 1]);
    }
  }

  lemma {:induction false} SameRest(m: multiset<real>, m': multiset<real>, x: real)
    requires m + multiset{x} == m' + multiset{x}
    ensures m == m'
  {
    assert m == m + multiset{x} - multiset{x};
  }

  lemma {:induction false} SortUnique(s: seq<real>, r: seq<real>)
    requires Ordered(r) && multiset(r) == multiset(s)
    ensures r == Sort(s)
  {
    SortOrdered(s);
    SortPermutes(s);
    OrderedUnique(r, Sort(s));
  }

  // ----- the filter -----

  function Total(s: seq<real>): real {
    if s == [] then 0.0 else Total(s[..|s| - 1]) + s[|s| - 1]
  }

  function Trimmed(s: seq<real>, k: nat): (r: seq<real>)
    requires 2 * k < |s|
    ensures |r| == |s| - 2 * k
  {
    Sort(s)[k..|s| - k]
  }

  function TrimmedMean(s: seq<real>, k: nat): real
    requires 2 * k < |s|
  {
    Total(Trimmed(s, k)) / (|s| - 2 * k) as real
  }

  /** The result of the division: 0 / 0 when every sample is filtered out. */
  datatype Average = NotANumber | Mean(value: real)

  /** get_average_stall_rate on a trace of rates: the first is thrown away, the next n are kept.  Filtering
      more than n samples would erase beyond the vector. */
  method AverageStallRate(trace: seq<real>, n: nat, outliers: nat) returns (average: Average)
    requires |trace| == n + 1 && 2 * outliers <= n
    ensures average == if 2 * outliers < n then Mean(TrimmedMean(trace[1..], outliers)) else NotANumber
  {
    var measurements: seq<real> := [];
    for i := 0 to n
      invariant measurements == trace[1..i + 1]
    {
      measurements := measurements + [trace[i + 1]];
    }
    assert trace[1..n + 1] == trace[1..];
    measurements := Sort(measurements);
    measurements := measurements[..|measurements| - outliers];
    measurements := measurements[outliers..];
    if measurements == [] {
      return NotANumber;
    }
    assert measurements == Trimmed(trace[1..], outliers);
    var sum := 0.0;
    for i := 0 to |measurements|
      invariant sum == Total(measurements[..i])
    {
      assert measurements[..i + 1][..i] == measurements[..i];
      sum := sum + measurements[i];
    }
    assert measurements[..|measurements|] == measurements;
    average := Mean(sum / |measurements| as real);
  }

  /** The order of the samples does not matter. */
  lemma {:induction false} OrderIrrelevant(s: seq<real>, s': seq<real>, k: nat)
    requires 2 * k < |s| && multiset(s) == multiset(s')
    ensures |s'| == |s| && TrimmedMean(s, k) == TrimmedMean(s', k)
  {
    assert |multiset(s)| == |s| && |multiset(s')| == |s'|;
    SortOrdered(s);
    SortPermutes(s);
    SortUnique(s', Sort(s));
  }

  // ----- what the mean is -----

  /** Total adds up: this is all there is to it. */
  lemma {:induction false} TotalAdds(a: seq<real>, b: seq<real>)
    ensures Total([]) == 0.0
    ensures Total(a + b) == Total(a) + Total(b)
    ensures |b| == 1 ==> Total(b) == b[0]
  {
    if b == [] {
      assert a + b == a;
    } else {
      var k := |b| - 1;
      assert (a + b)[..|a| + k] == a + b[..k];
      TotalAdds(a, b[..k]);
    }
  }

  lemma {:induction false} TotalOfInsert(x: real, s: seq<real>)
    ensures Total(Insert(x, s)) == Total(s) + x
  {
    if s == [] || s[|s| - 1] <= x {
      assert (s + [x])[..|s|] == s;
    } else {
      TotalOfInsert(x, s[..|s| - 1]);
    }
  }

  lemma {:induction false} TotalOfSort(s: seq<real>)
    ensures Total(Sort(s)) == Total(s)
  {
    if s != [] {
      TotalOfSort(s[..|s| - 1]);
      TotalOfInsert(s[|s| - 1], Sort(s[..|s| - 1]));
    }
  }

  /** The result, times the number of samples kept, is the total of all samples less the k least and the k
      greatest, in whatever way the samples are sorted. */
  lemma {:induction false} MeanOfMiddle(s: seq<real>, k: nat, r: seq<real>)
    requires 2 * k < |s| && Ordered(r) && multiset(r) == multiset(s)
    ensures |r| == |s|
    ensures Times(|s| - 2 * k, TrimmedMean(s, k)) == Total(s) - Total(r[..k]) - Total(r[|s| - k..])
  {
    SortUnique(s, r);
    MiddleOfSorted(s, k);
  }

  lemma {:induction false} MiddleOfSorted(s: seq<real>, k: nat)
    requires 2 * k < |s|
    ensures Times(|s| - 2 * k, TrimmedMean(s, k)) == Total(s) - Total(Sort(s)[..k]) - Total(Sort(s)[|s| - k..])
  {
    TotalOfSort(s);
    MiddleTotal(Sort(s), k, |s| - 2 * k);
  }

  lemma {:induction false} MiddleTotal(t: seq<real>, k: nat, n: nat)
    requires 0 < n && |t| == n + 2 * k
    ensures Times(n, Total(t[k..k + n]) / n as real) == Total(t) - Total(t[..k]) - Total(t[k + n..])
  {
    TotalOfParts(t, k, k + n);
    Quotient(Total(t[k..k + n]), n);
  }

  lemma {:induction false} TotalOfParts(r: seq<real>, i: nat, j: nat)
    requires i <= j <= |r|
    ensures Total(r) == Total(r[..i]) + Total(r[i..j]) + Total(r[j..])
  {
    TotalAdds(r[..i], r[i..j]);
    TotalAdds(r[..i] + r[i..j], r[j..]);
    assert r[..i] + r[i..j] + r[j..] == r;
  }

  lemma {:induction false} Quotient(x: real, m: nat)
    requires 0 < m
    ensures Times(m, x / m as real) == x
  {
    TimesIsProduct(m, x / m as real);
  }

  // ----- counting -----

  function Below(s: seq<real>, v: real): nat {
    if s == [] then 0 else Below(s[..|s| - 1], v) + (if s[|s| - 1] < v then 1 else 0)
  }

  function Above(s: seq<real>, v: real): nat {
    if s == [] then 0 else Above(s[..|s| - 1], v) + (if s[|s| - 1] > v then 1 else 0)
  }

  lemma {:induction false} CountsOfAppend(s: seq<real>, x: real, v: real)
    ensures Below(s + [x], v) == Below(s, v) + (if x < v then 1 else 0)
    ensures Above(s + [x], v) == Above(s, v) + (if x > v then 1 else 0)
  {
    assert (s + [x])[..|s|] == s;
  }

  lemma {:induction false} CountsOfInsert(x: real, s: seq<real>, v: real)
    ensures Below(Insert(x, s), v) == Below(s, v) + (if x < v then 1 else 0)
    ensures Above(Insert(x, s), v) == Above(s, v) + (if x > v then 1 else 0)
  {
    if s == [] || s[|s| - 1] <= x {
      CountsOfAppend(s, x, v);
    } else {
      var init, last := s[..|s| - 1], s[|s| - 1];
      CountsOfInsert(x, init, v);
      CountsOfAppend(Insert(x, init), last, v);
    }
  }

  lemma {:induction false} CountsOfSort(s: seq<real>, v: real)
    ensures Below(Sort(s), v) == Below(s, v) && Above(Sort(s), v) == Above(s, v)
  {
    if s != [] {
      CountsOfSort(s[..|s| - 1], v);
      CountsOfInsert(s[|s| - 1], Sort(s[..|s| - 1]), v);
    }
  }

  /** In an ordered sequence the elements below v come first, and are as many as the count says. */
  lemma {:induction false} BelowIsPrefix(t: seq<real>, v: real, i: nat)
    requires Ordered(t) && i < |t|
    ensures t[i] < v <==> i < Below(t, v)
    ensures Below(t, v) <= |t|
  {
    var n := |t| - 1;
    var init := t[..n];
    if i < n {
      BelowIsPrefix(init, v, i);
      assert t[i] <= t[n];
      if init != [] { BelowIsPrefix(init, v, n - 1); }
    } else if init != [] {
      BelowIsPrefix(init, v, n - 1);
    }
  }

  /** And the elements above v come last. */
  lemma {:induction false} AboveIsSuffix(t: seq<real>, v: real, i: nat)
    requires Ordered(t) && i < |t|
    ensures t[i] > v <==> |t| - Above(t, v) <= i
    ensures Above(t, v) <= |t|
  {
    var n := |t| - 1;
    var init := t[..n];
    if i < n {
      AboveIsSuffix(init, v, i);
      assert t[i] <= t[n];
    } else if init != [] {
      AboveIsSuffix(init, v, n - 1);
      AboveIsSuffix(init, v, 0);
    }
  }

  // ----- robustness -----

  /** Samples outside [lo, hi] can only be at the bad positions. */
  lemma {:induction false} OutliersAreBad(s: seq<real>, bad: set<nat>, lo: real, hi: real)
    requires forall i :: 0 <= i < |s| && i !in bad ==> lo <= s[i] <= hi
    ensures Below(s, lo) <= |bad| && Above(s, hi) <= |bad|
  {
    if s != [] {
      var n := |s| - 1;
      var rest := bad - {n};
      OutliersAreBad(s[..n], rest, lo, hi);
      if n in bad {
        assert |rest| == |bad| - 1;
      } else {
        assert rest == bad;
      }
    }
  }

  lemma {:induction false} TotalBetween(s: seq<real>, lo: real, hi: real)
    requires forall i :: 0 <= i < |s| ==> lo <= s[i] <= hi
    ensures Times(|s|, lo) <= Total(s) <= Times(|s|, hi)
  {
    if s != [] { TotalBetween(s[..|s| - 1], lo, hi); }
  }

  lemma {:induction false} MeanBetween(total: real, n: nat, lo: real, hi: real)
    requires 0 < n && Times(n, lo) <= total <= Times(n, hi)
    ensures lo <= total / n as real <= hi
  {
    var m := total / n as real;
    TimesIsProduct(n, m);
    assert n as real * m == total;
    TimesCompare(n, lo, m);
    TimesCompare(n, m, hi);
  }

  lemma {:induction false} RankInRange(s: seq<real>, k: nat, lo: real, hi: real, i: nat)
    requires Below(s, lo) <= k && Above(s, hi) <= k && k <= i < |s| - k
    ensures lo <= Sort(s)[i] <= hi
  {
    SortOrdered(s);
    CountsOfSort(s, lo);
    CountsOfSort(s, hi);
    BelowIsPrefix(Sort(s), lo, i);
    AboveIsSuffix(Sort(s), hi, i);
  }

  /** With at most k arbitrary samples among more than 2k, the result stays between the bounds of the
      good ones. */
  lemma {:induction false} MeanIsRobust(s: seq<real>, k: nat, bad: set<nat>, lo: real, hi: real)
    requires 2 * k < |s| && |bad| <= k
    requires forall i :: 0 <= i < |s| && i !in bad ==> lo <= s[i] <= hi
    ensures lo <= TrimmedMean(s, k) <= hi
  {
    var r := Trimmed(s, k);
    OutliersAreBad(s, bad, lo, hi);
    forall i | 0 <= i < |r| ensures lo <= r[i] <= hi {
      RankInRange(s, k, lo, hi, k + i);
    }
    TotalBetween(r, lo, hi);
    MeanBetween(Total(r), |r|, lo, hi);
  }

  // ----- monotonicity -----

  ghost predicate Pointwise(s: seq<real>, s': seq<real>) {
    |s| == |s'| && forall i :: 0 <= i < |s| ==> s[i] <= s'[i]
  }

  lemma {:induction false} AboveGrows(s: seq<real>, s': seq<real>, v: real)
    requires Pointwise(s, s')
    ensures Above(s, v) <= Above(s', v)
  {
    if s != [] { AboveGrows(s[..|s| - 1], s'[..|s'| - 1], v); }
  }

  /** Raising samples raises every order statistic. */
  lemma {:induction false} SortGrows(s: seq<real>, s': seq<real>)
    requires Pointwise(s, s')
    ensures Pointwise(Sort(s), Sort(s'))
  {
    var t, t' := Sort(s), Sort(s');
    SortOrdered(s);
    SortOrdered(s');
    forall i | 0 <= i < |t| ensures t[i] <= t'[i] {
      var v := t'[i];
      AboveGrows(s, s', v);
      CountsOfSort(s, v);
      CountsOfSort(s', v);
      AboveIsSuffix(t, v, i);
      AboveIsSuffix(t', v, i);
    }
  }

  lemma {:induction false} TotalGrows(s: seq<real>, s': seq<real>)
    requires Pointwise(s, s')
    ensures Total(s) <= Total(s')
  {
    if s != [] { TotalGrows(s[..|s| - 1], s'[..|s'| - 1]); }
  }

  lemma {:induction false} QuotientGrows(a: real, b: real, n: nat)
    requires 0 < n && a <= b
    ensures a / n as real <= b / n as real
  {
    var x, y := a / n as real, b / n as real;
    TimesIsProduct(n, x);
    TimesIsProduct(n, y);
    assert n as real * x == a && n as real * y == b;
    TimesCompare(n, x, y);
  }

  /** Raising any samples never lowers the result. */
  lemma {:induction false} MeanIsMonotone(s: seq<real>, s': seq<real>, k: nat)
    requires 2 * k < |s| && Pointwise(s, s')
    ensures TrimmedMean(s, k) <= TrimmedMean(s', k)
  {
    SortGrows(s, s');
    TotalGrows(Trimmed(s, k), Trimmed(s', k));
    QuotientGrows(Total(Trimmed(s, k)), Total(Trimmed(s', k)), |s| - 2 * k);
  }
}
