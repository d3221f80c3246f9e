/** What the weighted mbind calls achieve: they tile the region, cover it, and give every node its
    share up to a bounded number of pages. */
module InterleavedShares {
  import opened Rounding
  import opened Dealing
  import opened Kernel
  import opened WeightedPlacement
  import Alignment

  // ----- the calls tile what the cuts say -----

  lemma {:induction false} PlanTiles(want: seq<nat>, size: nat, addr: nat, policy: Policy,
                                     served: seq<set<int>>, i: nat)
    requires i <= |served| == |want|
    ensures Tile(Plan(want, size, addr, policy, served, i), addr, addr + Cut(want, size, i))
  {
    if i > 0 {
      PlanTiles(want, size, addr, policy, served, i - 1);
      CutStep(want, size, i - 1);
      TileRound(Plan(want, size, addr, policy, served, i - 1), RoundCall(want, size, addr, policy, served, i - 1),
                addr, addr + Cut(want, size, i - 1), Chunk(want, size, i - 1));
    }
  }

  lemma {:induction false} TileRound(before: seq<Mbind>, c: seq<Mbind>, start: nat, end: nat, len: nat)
    requires Tile(before, start, end)
    requires if len == 0 then c == [] else |c| == 1 && c[0].start == end && c[0].len == len
    ensures Tile(before + c, start, end + len)
  {
    if len == 0 {
      assert before + c == before;
    } else {
      assert (before + c)[..|before|] == before;
    }
  }

  lemma {:induction false} WantsAreWholePages(nodes: seq<Record>, size: nat, g: nat, i: nat)
    requires Sorted(nodes) && 0 < g && i < |nodes|
    ensures Alignment.Whole(Wants(nodes, size, g)[i], g)
    ensures RoundSize(nodes, i, size) - 1.0 < Wants(nodes, size, g)[i] as real
          < RoundSize(nodes, i, size) + g as real
  {
    RoundsRise(nodes, i, size);
    var x := RoundSize(nodes, i, size);
    assert 0.0 <= Step(nodes, i);
    assert Wants(nodes, size, g)[i] == Alignment.AlignUp(Trunc(x), g);
    Alignment.AlignWhole(Trunc(x), g);
  }

  /** The least whole number of pages whose bytes are above a length less one byte: what truncating to
      bytes and rounding up to pages gives. */
  ghost predicate LeastPages(bytes: nat, length: real, g: nat)
    requires 0 < g
  {
    && Alignment.Whole(bytes, g) && length - 1.0 < bytes as real
    && forall q: nat :: length - 1.0 < Alignment.Bytes(q, g) as real ==> bytes <= Alignment.Bytes(q, g)
  }

  lemma {:induction false} TruncatedPages(length: real, g: nat)
    requires 0 < g && 0.0 <= length
    ensures LeastPages(Alignment.AlignUp(Trunc(length), g), length, g)
  {
    Alignment.AlignWhole(Trunc(length), g);
    forall q: nat | length - 1.0 < Alignment.Bytes(q, g) as real
      ensures Alignment.AlignUp(Trunc(length), g) <= Alignment.Bytes(q, g)
    {
      assert (Alignment.Bytes(q, g) - Trunc(length)) as real > -1.0;
    }
  }

  /** A round asks for exactly the least whole pages that its size, truncated to bytes, fills. */
  lemma {:induction false} WantsAreExact(nodes: seq<Record>, size: nat, g: nat, i: nat)
    requires Sorted(nodes) && 0 < g && i < |nodes|
    ensures LeastPages(Wants(nodes, size, g)[i], RoundSize(nodes, i, size), g)
  {
    RoundsRise(nodes, i, size);
    TruncatedPages(RoundSize(nodes, i, size), g);
    assert 0.0 <= Step(nodes, i);
  }

  lemma {:induction false} RoundsRise(nodes: seq<Record>, i: nat, size: nat)
    requires Sorted(nodes) && i < |nodes|
    ensures 0.0 <= RoundSize(nodes, i, size)
  {
    assert 0.0 <= Step(nodes, i);
    TimesMonotone(|nodes| - i, Step(nodes, i) / 100.0, 0.0);
    TimesDistributes(|nodes| - i, 0.0, 0.0);
    TimesMonotone(size, Times(|nodes| - i, Step(nodes, i) / 100.0), 0.0);
    TimesDistributes(size, 0.0, 0.0);
  }

  // ----- covering the region -----

  /** Truncation loses less than a byte a round. */
  lemma {:induction false} BytesAsked(nodes: seq<Record>, size: nat, g: nat, i: nat)
    requires Sorted(nodes) && 0 < g && i <= |nodes|
    ensures Sum(Wants(nodes, size, g), i) as real >= Dealt(Shares(nodes, size), i) - i as real
    ensures 0 < i ==> Sum(Wants(nodes, size, g), i) as real > Dealt(Shares(nodes, size), i) - i as real
  {
    var y := Shares(nodes, size);
    if i > 0 {
      BytesAsked(nodes, size, g, i - 1);
      WantsAreWholePages(nodes, size, g, i - 1);
      RoundSizeIsIdeal(nodes, i - 1, size);
      DealtStep(y, i - 1);
    } else {
      TimesDistributes(|y|, 0.0, 0.0);
    }
  }

  /** Byte counts that are all whole numbers of pages. */
  ghost predicate InBytes(want: seq<nat>, pages: seq<nat>, g: nat) {
    && |want| == |pages|
    && forall i :: 0 <= i < |want| ==> want[i] == Alignment.Bytes(pages[i], g)
  }

  lemma {:induction false} SumInBytes(want: seq<nat>, pages: seq<nat>, g: nat, i: nat)
    requires InBytes(want, pages, g) && i <= |want|
    ensures Sum(want, i) == Alignment.Bytes(Sum(pages, i), g)
  {
    if i > 0 {
      SumInBytes(want, pages, g, i - 1);
      Alignment.BytesAdd(Sum(pages, i - 1), pages[i - 1], g);
    }
  }

  /** Cuts in bytes are cuts in pages. */
  lemma {:induction false} CutInBytes(want: seq<nat>, pages: seq<nat>, p: nat, g: nat, i: nat)
    requires 0 < g && InBytes(want, pages, g) && i <= |want|
    ensures Cut(want, Alignment.Bytes(p, g), i) == Alignment.Bytes(Cut(pages, p, i), g)
  {
    SumInBytes(want, pages, g, i);
    Alignment.BytesOrdered(p, Sum(pages, i), g);
  }

  /** What each round asks for, in pages. */
  function PageWants(nodes: seq<Record>, size: nat, g: nat): (pages: seq<nat>)
    requires Sorted(nodes) && 0 < g
    ensures |pages| == |nodes|
  {
    seq(|nodes|, i requires 0 <= i < |nodes| => Alignment.PageOf(Wants(nodes, size, g)[i], g))
  }

  lemma {:induction false} WantsInBytes(nodes: seq<Record>, size: nat, g: nat)
    requires Sorted(nodes) && 0 < g
    ensures InBytes(Wants(nodes, size, g), PageWants(nodes, size, g), g)
  {
    var want, pages := Wants(nodes, size, g), PageWants(nodes, size, g);
    forall i | 0 <= i < |want| ensures want[i] == Alignment.Bytes(pages[i], g) {
      WantsAreWholePages(nodes, size, g, i);
    }
  }

  /** A percentage of 100 or more of the region is all of it. */
  lemma {:induction false} FullShare(size: nat, percent: real)
    ensures percent >= 100.0 ==> Times(size, percent / 100.0) >= size as real
    ensures percent <= 100.0 ==> Times(size, percent / 100.0) <= size as real
  {
    TimesOne(size);
    if percent >= 100.0 {
      TimesMonotone(size, percent / 100.0, 1.0);
    }
    if percent <= 100.0 {
      TimesMonotone(size, 1.0, percent / 100.0);
    }
  }

  lemma {:induction false} AskedAtLeast(nodes: seq<Record>, size: nat, g: nat)
    requires Sorted(nodes) && 0 < |nodes| && 0 < g
    ensures Sum(Wants(nodes, size, g), |nodes|) as real
          > Times(size, TotalWeight(nodes, |nodes|) / 100.0) - |nodes| as real
  {
    BytesAsked(nodes, size, g, |nodes|);
    SharesTotal(nodes, size, |nodes|);
  }

  lemma {:induction false} AskedInFull(asked: nat, size: nat, percent: real, n: nat, g: nat)
    requires asked as real > Times(size, percent / 100.0) - n as real && percent >= 100.0 && n <= g
    ensures asked > size - g
  {
    FullShare(size, percent);
  }

  /** When the weights add up to 100, N is at most the page size and the region is a whole number of
      pages, the calls cover all of it. */
  lemma {:induction false} RegionCovered(nodes: seq<Record>, p: nat, g: nat)
    requires Sorted(nodes) && 0 < |nodes| <= g && TotalWeight(nodes, |nodes|) >= 100.0
    ensures var size := Alignment.Bytes(p, g); Cut(Wants(nodes, size, g), size, |nodes|) == size
  {
    var size, n := Alignment.Bytes(p, g), |nodes|;
    var want, pages := Wants(nodes, size, g), PageWants(nodes, size, g);
    AskedAtLeast(nodes, size, g);
    AskedInFull(Sum(want, n), size, TotalWeight(nodes, n), n, g);
    assert InBytes(want, pages, g) by { WantsInBytes(nodes, size, g); }
    WholePagesSuffice(want, pages, p, g);
  }

  /** Less than a page short of a whole number of pages is not short at all. */
  lemma {:induction false} WholePagesSuffice(want: seq<nat>, pages: seq<nat>, p: nat, g: nat)
    requires 0 < g && InBytes(want, pages, g)
    requires Sum(want, |want|) > Alignment.Bytes(p, g) - g
    ensures Cut(want, Alignment.Bytes(p, g), |want|) == Alignment.Bytes(p, g)
  {
    SumInBytes(want, pages, g, |want|);
    Alignment.BytesOrdered(Sum(pages, |want|), p, g);
  }

  /** Otherwise what stays uncovered is the missing percentage and less than a byte per node. */
  lemma {:induction false} UncoveredTail(nodes: seq<Record>, size: nat, g: nat)
    requires Sorted(nodes) && 0 < |nodes| && 0 < g && TotalWeight(nodes, |nodes|) <= 100.0
    ensures (size - Cut(Wants(nodes, size, g), size, |nodes|)) as real
          < Times(size, (100.0 - TotalWeight(nodes, |nodes|)) / 100.0) + |nodes| as real
  {
    var t := TotalWeight(nodes, |nodes|);
    AskedAtLeast(nodes, size, g);
    TimesDistributes(size, 1.0, t / 100.0);
    TimesDistributes(size, 0.0, 0.0);
    TimesOne(size);
    TimesMonotone(size, (100.0 - t) / 100.0, 0.0);
    assert (100.0 - t) / 100.0 == 1.0 - t / 100.0;
  }

  // ----- sizing, in pages -----

  lemma {:induction false} TimesAdd(n: nat, m: nat, x: real)
    ensures Times(n + m, x) == Times(n, x) + Times(m, x)
  {
    if m > 0 { TimesAdd(n, m - 1, x); }
  }

  lemma {:induction false} TimesBytes(p: nat, g: nat, x: real)
    ensures Times(Alignment.Bytes(p, g), x) == Times(g, Times(p, x))
  {
    if p > 0 {
      TimesBytes(p - 1, g, x);
      TimesAdd(Alignment.Bytes(p - 1, g), g, x);
      TimesDistributes(g, Times(p - 1, x), x);
    } else {
      TimesDistributes(g, 0.0, 0.0);
    }
  }

  /** Truncating to bytes and rounding up to pages keeps each round within a page of the ideal. */
  lemma {:induction false} RoundsWithinAPage(nodes: seq<Record>, p: nat, g: nat)
    requires Sorted(nodes) && 0 < g
    ensures WithinAPage(PageWants(nodes, Alignment.Bytes(p, g), g), Shares(nodes, p))
  {
    var want, y := Wants(nodes, Alignment.Bytes(p, g), g), Shares(nodes, p);
    var pages := PageWants(nodes, Alignment.Bytes(p, g), g);
    forall i | 0 <= i < |y| ensures RoundWithinAPage(pages, y, i) {
      WantsAreWholePages(nodes, Alignment.Bytes(p, g), g, i);
      TimesBytes(p, g, Times(|nodes| - i, Step(nodes, i) / 100.0));
      RoundSizeIsIdeal(nodes, i, p);
      PageOfBytes(want[i], pages[i], g, Ideal(y, i));
    }
  }

  lemma {:induction false} BytesAsTimes(p: nat, g: nat)
    ensures Times(g, p as real) == Alignment.Bytes(p, g) as real
  {
    if p > 0 {
      BytesAsTimes(p - 1, g);
      assert p as real == (p - 1) as real + 1.0;
      TimesDistributes(g, (p - 1) as real, 1.0);
      TimesOne(g);
    } else {
      TimesDistributes(g, 0.0, 0.0);
    }
  }

  lemma {:induction false} PageOfBytes(bytes: nat, pages: nat, g: nat, ideal: real)
    requires 0 < g && bytes == Alignment.Bytes(pages, g)
    requires Times(g, ideal) - 1.0 < bytes as real < Times(g, ideal) + g as real
    ensures ideal - 1.0 < pages as real < ideal + 1.0
  {
    BytesAsTimes(pages, g);
    TimesDistributes(g, ideal, 1.0);
    TimesOne(g);
    if pages as real >= ideal + 1.0 {
      TimesMonotone(g, pages as real, ideal + 1.0);
    }
    if pages as real <= ideal - 1.0 {
      TimesMonotone(g, ideal - 1.0, pages as real);
    }
  }

  // ----- from calls to rounds -----

  /** The nodes still in play are the rest of the table. */
  lemma {:induction false} InPlayIsSuffix(ids: seq<int>, i: nat)
    requires i <= |ids| && Distinct(ids) && forall n :: n in ids ==> 0 <= n < |ids|
    ensures InPlay(ids, i) == Elements(ids[i..])
  {
    if i == 0 {
      DistinctIsAll(ids);
      assert ids[0..] == ids;
    } else {
      InPlayIsSuffix(ids, i - 1);
      assert ids[i - 1..] == [ids[i - 1]] + ids[i..];
      InSuffix(ids, i, i - 1);
    }
  }

  /** The turn of round i: the kernel's for its call, and an idle one if it has none.  `base` is the
      page number at which the region starts. */
  function RoundTurn(want: seq<nat>, size: nat, addr: nat, policy: Policy, served: seq<set<int>>,
                     idle: seq<Turn>, choice: Choice, base: nat, i: nat): Turn
    requires i < |served| == |want| == |idle|
  {
    var c := RoundCall(want, size, addr, policy, served, i);
    if c == [] then idle[i]
    else Turn(choice(c[0]).order, choice(c[0]).phase + base)
  }

  function RoundTurns(want: seq<nat>, size: nat, addr: nat, policy: Policy, served: seq<set<int>>,
                      idle: seq<Turn>, choice: Choice, base: nat): (turns: seq<Turn>)
    requires |served| == |want| == |idle|
    ensures |turns| == |want|
    ensures forall i :: 0 <= i < |turns| ==> turns[i] == RoundTurn(want, size, addr, policy, served, idle, choice, base, i)
  {
    seq(|want|, i requires 0 <= i < |want| => RoundTurn(want, size, addr, policy, served, idle, choice, base, i))
  }

  /** Every turn serves the nodes of its round as the policy demands. */
  ghost predicate AllServe(turns: seq<Turn>, policy: Policy, served: seq<set<int>>) {
    && |turns| == |served|
    && forall i :: 0 <= i < |turns| ==> Honours(turns[i], policy, served[i])
  }

  lemma {:induction false} RoundTurnServes(want: seq<nat>, size: nat, addr: nat, policy: Policy,
                                           served: seq<set<int>>, idle: seq<Turn>, choice: Choice, base: nat,
                                           i: nat)
    requires i < |served| == |want| && AllServe(idle, policy, served)
    requires Obeys(choice, Plan(want, size, addr, policy, served, |served|))
    ensures Honours(RoundTurn(want, size, addr, policy, served, idle, choice, base, i), policy, served[i])
  {
    var c := RoundCall(want, size, addr, policy, served, i);
    if c != [] {
      PlanHasCall(want, size, addr, policy, served, i, |served|);
      assert c[0] in Plan(want, size, addr, policy, served, |served|);
    }
  }

  lemma {:induction false} PlanHasCall(want: seq<nat>, size: nat, addr: nat, policy: Policy,
                                       served: seq<set<int>>, i: nat, j: nat)
    requires i < j <= |served| == |want|
    ensures forall c :: c in RoundCall(want, size, addr, policy, served, i) ==> c in Plan(want, size, addr, policy, served, j)
  {
    if i + 1 < j { PlanHasCall(want, size, addr, policy, served, i, j - 1); }
  }

  lemma {:induction false} RoundTurnsServe(want: seq<nat>, size: nat, addr: nat, policy: Policy,
                                           served: seq<set<int>>, idle: seq<Turn>, choice: Choice, base: nat)
    requires |served| == |want| && AllServe(idle, policy, served)
    requires Obeys(choice, Plan(want, size, addr, policy, served, |served|))
    ensures AllServe(RoundTurns(want, size, addr, policy, served, idle, choice, base), policy, served)
    ensures SomeoneServed(RoundTurns(want, size, addr, policy, served, idle, choice, base))
  {
    var turns := RoundTurns(want, size, addr, policy, served, idle, choice, base);
    forall i | 0 <= i < |turns| ensures Honours(turns[i], policy, served[i]) && turns[i].order != [] {
      RoundTurnServes(want, size, addr, policy, served, idle, choice, base, i);
    }
  }

  /** A call over whole pages deals them as a round does. */
  lemma {:induction false} PlacedStep(calls: seq<Mbind>, c: Mbind, choice: Choice, g: nat, base: nat, lo: nat, hi: nat)
    requires 0 < g && Obeys(choice, calls + [c]) && lo <= hi
    requires c.start == Alignment.Bytes(base + lo, g) && c.start + c.len == Alignment.Bytes(base + hi, g)
    ensures Obeys(choice, calls)
    ensures choice(c).order != []
    ensures Placed(calls + [c], choice, g)
         == Placed(calls, choice, g) + Deal(lo, hi, Turn(choice(c).order, choice(c).phase + base))
  {
    PlacedLast(calls, c, choice, g);
    Alignment.BytesWhole(base + lo, g);
    Alignment.BytesWhole(base + hi, g);
    DealShifted(base, lo, hi, choice(c));
  }

  /** The same for a round, which may make no call at all. */
  lemma {:induction false} PlacedRound(before: seq<Mbind>, c: seq<Mbind>, choice: Choice, g: nat, base: nat,
                                       lo: nat, hi: nat, t: Turn)
    requires 0 < g && Obeys(choice, before + c) && lo <= hi && t.order != []
    requires c == [] ==> lo == hi
    requires c != [] ==> |c| == 1 && c[0].start == Alignment.Bytes(base + lo, g)
    requires c != [] ==> c[0].start + c[0].len == Alignment.Bytes(base + hi, g)
    requires c != [] ==> t == Turn(choice(c[0]).order, choice(c[0]).phase + base)
    ensures Obeys(choice, before)
    ensures Placed(before + c, choice, g) == Placed(before, choice, g) + Deal(lo, hi, t)
  {
    if c == [] {
      assert before + c == before;
    } else {
      assert c == [c[0]];
      PlacedStep(before, c[0], choice, g, base, lo, hi);
    }
  }

  lemma {:induction false} PlacedLast(calls: seq<Mbind>, c: Mbind, choice: Choice, g: nat)
    requires 0 < g && Obeys(choice, calls + [c])
    ensures Obeys(choice, calls) && choice(c).order != []
    ensures Placed(calls + [c], choice, g)
         == Placed(calls, choice, g) + Deal(Alignment.PageOf(c.start, g), EndPage(c, g), choice(c))
  {
    assert (calls + [c])[..|calls|] == calls;
    assert c in calls + [c];
    assert forall d :: d in calls ==> d in calls + [c];
  }

  /** The call of a round covers exactly its pages. */
  lemma {:induction false} RoundCallRange(want: seq<nat>, pages: seq<nat>, p: nat, base: nat, g: nat,
                                          policy: Policy, served: seq<set<int>>, i: nat)
    requires i < |want| == |served| && 0 < g && InBytes(want, pages, g)
    ensures var lo, hi := Cut(pages, p, i), Cut(pages, p, i + 1);
            var c := RoundCall(want, Alignment.Bytes(p, g), Alignment.Bytes(base, g), policy, served, i);
            && lo <= hi
            && (c == [] ==> lo == hi)
            && (c != [] ==> |c| == 1 && c[0].start == Alignment.Bytes(base + lo, g)
                            && c[0].start + c[0].len == Alignment.Bytes(base + hi, g))
  {
    var lo, hi := Cut(pages, p, i), Cut(pages, p, i + 1);
    CutInBytes(want, pages, p, g, i);
    CutInBytes(want, pages, p, g, i + 1);
    SumMonotone(pages, i, i + 1);
    Alignment.BytesOrdered(lo, hi, g);
    Alignment.BytesAdd(base, lo, g);
    Alignment.BytesAdd(base, hi, g);
  }

  /** One round of the plan places the pages of one round of the model. */
  lemma {:induction false} PlanPlacedStep(want: seq<nat>, pages: seq<nat>, p: nat, base: nat, policy: Policy,
                                          served: seq<set<int>>, choice: Choice, g: nat, i: nat, t: Turn)
    requires i < |served| == |want| && 0 < g && InBytes(want, pages, g) && t.order != []
    requires Obeys(choice, Plan(want, Alignment.Bytes(p, g), Alignment.Bytes(base, g), policy, served, i + 1))
    requires var c := RoundCall(want, Alignment.Bytes(p, g), Alignment.Bytes(base, g), policy, served, i);
             c != [] ==> t == Turn(choice(c[0]).order, choice(c[0]).phase + base)
    ensures var size, addr := Alignment.Bytes(p, g), Alignment.Bytes(base, g);
            && Obeys(choice, Plan(want, size, addr, policy, served, i))
            && Cut(pages, p, i) <= Cut(pages, p, i + 1)
            && Placed(Plan(want, size, addr, policy, served, i + 1), choice, g)
               == Placed(Plan(want, size, addr, policy, served, i), choice, g) + Deal(Cut(pages, p, i), Cut(pages, p, i + 1), t)
  {
    var size, addr := Alignment.Bytes(p, g), Alignment.Bytes(base, g);
    RoundCallRange(want, pages, p, base, g, policy, served, i);
    PlacedRound(Plan(want, size, addr, policy, served, i), RoundCall(want, size, addr, policy, served, i),
                choice, g, base, Cut(pages, p, i), Cut(pages, p, i + 1), t);
  }

  lemma {:induction false} PlanPlacedRound(want: seq<nat>, pages: seq<nat>, p: nat, base: nat, policy: Policy,
                                           served: seq<set<int>>, idle: seq<Turn>, choice: Choice, g: nat,
                                           turns: seq<Turn>, i: nat)
    requires i < |served| == |want| == |idle| && 0 < g && InBytes(want, pages, g)
    requires Obeys(choice, Plan(want, Alignment.Bytes(p, g), Alignment.Bytes(base, g), policy, served, i + 1))
    requires turns == RoundTurns(want, Alignment.Bytes(p, g), Alignment.Bytes(base, g), policy, served, idle, choice, base)
    requires SomeoneServed(turns)
    ensures var size, addr := Alignment.Bytes(p, g), Alignment.Bytes(base, g);
            && Obeys(choice, Plan(want, size, addr, policy, served, i))
            && (Placed(Plan(want, size, addr, policy, served, i), choice, g) == Layout(pages, p, turns, i)
                ==> Placed(Plan(want, size, addr, policy, served, i + 1), choice, g) == Layout(pages, p, turns, i + 1))
  {
    var t := RoundTurn(want, Alignment.Bytes(p, g), Alignment.Bytes(base, g), policy, served, idle, choice, base, i);
    assert turns[i] == t;
    PlanPlacedStep(want, pages, p, base, policy, served, choice, g, i, t);
  }

  /** Whatever order the kernel picks, the pages end up as the rounds of the model say. */
  lemma {:induction false} PlacedIsLayout(want: seq<nat>, pages: seq<nat>, p: nat, base: nat, policy: Policy,
                                          served: seq<set<int>>, idle: seq<Turn>, choice: Choice, g: nat,
                                          turns: seq<Turn>, i: nat)
    requires i <= |served| == |want| == |idle| && 0 < g && InBytes(want, pages, g)
    requires Obeys(choice, Plan(want, Alignment.Bytes(p, g), Alignment.Bytes(base, g), policy, served, i))
    requires turns == RoundTurns(want, Alignment.Bytes(p, g), Alignment.Bytes(base, g), policy, served, idle, choice, base)
    requires SomeoneServed(turns)
    ensures Placed(Plan(want, Alignment.Bytes(p, g), Alignment.Bytes(base, g), policy, served, i), choice, g)
         == Layout(pages, p, turns, i)
  {
    if i > 0 {
      PlanPlacedRound(want, pages, p, base, policy, served, idle, choice, g, turns, i - 1);
      PlacedIsLayout(want, pages, p, base, policy, served, idle, choice, g, turns, i - 1);
    }
  }

  /** For any sizing in whole pages there are turns, one per round and serving its nodes, that describe
      what the kernel does with the calls. */
  lemma {:induction false} CallsAreRounds(want: seq<nat>, pages: seq<nat>, p: nat, base: nat, policy: Policy,
                                          served: seq<set<int>>, idle: seq<Turn>, choice: Choice, g: nat)
    returns (turns: seq<Turn>)
    requires |served| == |want| && 0 < g && InBytes(want, pages, g) && AllServe(idle, policy, served)
    requires Obeys(choice, Plan(want, Alignment.Bytes(p, g), Alignment.Bytes(base, g), policy, served, |served|))
    ensures AllServe(turns, policy, served) && SomeoneServed(turns)
    ensures Placed(Plan(want, Alignment.Bytes(p, g), Alignment.Bytes(base, g), policy, served, |served|), choice, g)
         == Layout(pages, p, turns, |served|)
  {
    turns := RoundTurns(want, Alignment.Bytes(p, g), Alignment.Bytes(base, g), policy, served, idle, choice, base);
    RoundTurnsServe(want, Alignment.Bytes(p, g), Alignment.Bytes(base, g), policy, served, idle, choice, base);
    PlacedIsLayout(want, pages, p, base, policy, served, idle, choice, g, turns, |served|);
  }

  // ----- the shares -----

  /** The calls for a region of p pages that starts at page `base`. */
  function RegionPlan(nodes: seq<Record>, base: nat, p: nat, g: nat): seq<Mbind>
    requires Sorted(nodes) && 0 < g
  {
    var size := Alignment.Bytes(p, g);
    Plan(Wants(nodes, size, g), size, Alignment.Bytes(base, g), Interleave, InPlaySets(Ids(nodes)), |nodes|)
  }

  /** Round i serves the rest of the table in table order, by page number. */
  function SuffixTurns(ids: seq<int>): (turns: seq<Turn>)
    ensures |turns| == |ids|
    ensures forall i :: 0 <= i < |ids| ==> turns[i] == Turn(ids[i..], 0)
    ensures SomeoneServed(turns)
  {
    seq(|ids|, i requires 0 <= i < |ids| => Turn(ids[i..], 0))
  }

  lemma {:induction false} SuffixTurnsServe(ids: seq<int>)
    requires OneEach(ids)
    ensures AllServe(SuffixTurns(ids), Interleave, InPlaySets(ids))
  {
    var turns, served := SuffixTurns(ids), InPlaySets(ids);
    forall i | 0 <= i < |turns| ensures Honours(turns[i], Interleave, served[i]) {
      DistinctSuffix(ids, i);
      InPlayIsSuffix(ids, i);
    }
  }

  lemma {:induction false} InPlayTurns(ids: seq<int>, turns: seq<Turn>)
    requires OneEach(ids) && AllServe(turns, Interleave, InPlaySets(ids))
    ensures TurnsOver(turns, ids)
  {
    forall i | 0 <= i < |ids| ensures TurnOver(turns[i], ids[i..]) {
      assert Honours(turns[i], Interleave, InPlaySets(ids)[i]);
      DistinctSuffix(ids, i);
      InPlayIsSuffix(ids, i);
      ServesList(turns[i], ids[i..]);
    }
  }

  lemma {:induction false} RegionIsLayout(nodes: seq<Record>, base: nat, p: nat, g: nat,
                                          choice: Choice) returns (turns: seq<Turn>)
    requires Table(nodes) && 0 < g && Obeys(choice, RegionPlan(nodes, base, p, g))
    ensures TurnsOver(turns, Ids(nodes)) && SomeoneServed(turns)
    ensures Placed(RegionPlan(nodes, base, p, g), choice, g)
         == Layout(PageWants(nodes, Alignment.Bytes(p, g), g), p, turns, |nodes|)
  {
    var size, ids := Alignment.Bytes(p, g), Ids(nodes);
    WantsInBytes(nodes, size, g);
    SuffixTurnsServe(ids);
    turns := CallsAreRounds(Wants(nodes, size, g), PageWants(nodes, size, g), p, base, Interleave,
                            InPlaySets(ids), SuffixTurns(ids), choice, g);
    InPlayTurns(ids, turns);
  }

  /** The pages by which weights of more than 100 in total exceed the region. */
  function Excess(nodes: seq<Record>, p: nat): real {
    var w := TotalWeight(nodes, |nodes|);
    if w > 100.0 then Times(p, (w - 100.0) / 100.0) else 0.0
  }

  lemma {:induction false} SharesFit(nodes: seq<Record>, p: nat)
    ensures RealSum(Shares(nodes, p), |nodes|) <= p as real + Excess(nodes, p)
    ensures 0.0 <= Excess(nodes, p)
  {
    var w := TotalWeight(nodes, |nodes|);
    SharesTotal(nodes, p, |nodes|);
    FullShare(p, w);
    if w > 100.0 {
      assert w / 100.0 == 1.0 + (w - 100.0) / 100.0;
      TimesDistributes(p, 1.0, (w - 100.0) / 100.0);
      TimesOne(p);
      TimesMonotone(p, (w - 100.0) / 100.0, 0.0);
    }
  }

  lemma {:induction false} RoundsShare(nodes: seq<Record>, p: nat, g: nat, turns: seq<Turn>, k: nat)
    requires Table(nodes) && 0 < g && k < |nodes|
    requires TurnsOver(turns, Ids(nodes)) && SomeoneServed(turns)
    ensures var got := Pages(PageWants(nodes, Alignment.Bytes(p, g), g), p, turns, |nodes|, nodes[k].id) as real;
            var share := Times(p, nodes[k].weight / 100.0);
            share - (2 * |nodes| - 1) as real - Excess(nodes, p) < got < share + (k + 1) as real
  {
    RoundsWithinAPage(nodes, p, g);
    SharesAscend(nodes, p);
    SharesFit(nodes, p);
    Proportional(PageWants(nodes, Alignment.Bytes(p, g), g), Shares(nodes, p), p, Excess(nodes, p), turns, Ids(nodes), k);
  }

  /** However the kernel orders the nodes of each call, the node at position k of the sorted table owns
      fewer than k + 1 pages more than its percentage of the region, and fewer than 2N - 1 less; if the
      weights total more than 100, what they exceed it by may be missing as well. */
  lemma {:induction false} InterleavedProportional(nodes: seq<Record>, base: nat, p: nat, g: nat,
                                                   choice: Choice, k: nat)
    requires Table(nodes) && 0 < g && k < |nodes| && Obeys(choice, RegionPlan(nodes, base, p, g))
    ensures var got := Owned(RegionPlan(nodes, base, p, g), choice, g, nodes[k].id) as real;
            var share := Times(p, nodes[k].weight / 100.0);
            share - (2 * |nodes| - 1) as real - Excess(nodes, p) < got < share + (k + 1) as real
  {
    var turns := RegionIsLayout(nodes, base, p, g, choice);
    RoundsShare(nodes, p, g, turns, k);
  }
}
