/** Fixed-size round-robin placement: 64 pages to each node in turn. */
module UniformInterleave {
  import opened Outcomes
  import opened Dealing
  import opened Kernel
  import opened WeightedPlacement
  import opened InterleavedShares
  import opened ContiguousShares
  import Alignment

  const PAGES_PER_CALL: nat := 64

  function Calls(p: nat): nat {
    (p + PAGES_PER_CALL - 1) / PAGES_PER_CALL
  }

  function Constant(n: nat, x: nat): (s: seq<nat>)
    ensures |s| == n && forall i :: 0 <= i < n ==> s[i] == x
  {
    if n == 0 then [] else Constant(n - 1, x) + [x]
  }

  /** Call i goes to node i modulo the number of nodes. */
  function Rotation(n: nat, c: nat): (served: seq<set<int>>)
    requires 0 < n
    ensures |served| == c && forall i :: 0 <= i < c ==> served[i] == {i % n}
  {
    if c == 0 then [] else Rotation(n, c - 1) + [{(c - 1) % n}]
  }

  function UniformPlan(base: nat, p: nat, g: nat, n: nat, i: nat): seq<Mbind>
    requires 0 < n && i <= Calls(p)
  {
    Plan(Constant(Calls(p), Alignment.Bytes(PAGES_PER_CALL, g)), Alignment.Bytes(p, g), Alignment.Bytes(base, g),
         Bind, Rotation(n, Calls(p)), i)
  }

  lemma {:induction false} SumConstant(n: nat, x: nat, i: nat)
    requires i <= n
    ensures Sum(Constant(n, Alignment.Bytes(PAGES_PER_CALL, x)), i) == Alignment.Bytes(PAGES_PER_CALL * i, x)
  {
    if i > 0 {
      SumConstant(n, x, i - 1);
      Alignment.BytesAdd(PAGES_PER_CALL * (i - 1), PAGES_PER_CALL, x);
    }
  }

  lemma {:induction false} SumSixtyFours(n: nat, i: nat)
    requires i <= n
    ensures Sum(Constant(n, PAGES_PER_CALL), i) == PAGES_PER_CALL * i
  {
    if i > 0 { SumSixtyFours(n, i - 1); }
  }

  /** The region lasts for exactly the planned number of calls. */
  lemma {:induction false} RoundsLast(p: nat, g: nat, i: nat)
    requires 0 < g && i <= Calls(p)
    ensures Cut(Constant(Calls(p), Alignment.Bytes(PAGES_PER_CALL, g)), Alignment.Bytes(p, g), i) < Alignment.Bytes(p, g)
       <==> i < Calls(p)
  {
    SumConstant(Calls(p), g, i);
    Alignment.BytesOrdered(PAGES_PER_CALL * i, p, g);
  }

  lemma {:induction false} NextTurn(i: nat, n: nat)
    requires 0 < n
    ensures (i % n + 1) % n == (i + 1) % n
  {
    var q, r := i / n, i % n;
    assert i == q * n + r;
    if r + 1 < n {
      Alignment.DivModUnique(i + 1, n, q, r + 1);
      Alignment.DivModUnique(r + 1, n, 0, r + 1);
    } else {
      assert (q + 1) * n == q * n + n;
      Alignment.DivModUnique(i + 1, n, q + 1, 0);
      Alignment.DivModUnique(r + 1, n, 1, 0);
    }
  }

  /** How far the first i calls reach. */
  function Covered(p: nat, g: nat, i: nat): nat
    requires i <= Calls(p)
  {
    Cut(Constant(Calls(p), Alignment.Bytes(PAGES_PER_CALL, g)), Alignment.Bytes(p, g), i)
  }

  /** One more call, while there is something left. */
  lemma {:induction false} UniformStep(base: nat, p: nat, g: nat, n: nat, i: nat)
    requires 0 < g && 0 < n && i < Calls(p)
    ensures var size := Alignment.Bytes(p, g);
            var taken := Min(Alignment.Bytes(PAGES_PER_CALL, g), size - Covered(p, g, i));
            && 0 < taken && Covered(p, g, i + 1) == Covered(p, g, i) + taken <= size
            && UniformPlan(base, p, g, n, i + 1)
               == UniformPlan(base, p, g, n, i)
                  + [Mbind(Alignment.Bytes(base, g) + Covered(p, g, i), taken, Bind, {i % n})]
  {
    RoundsLast(p, g, i);
    Alignment.BytesOrdered(0, PAGES_PER_CALL, g);
    PlanStep(Constant(Calls(p), Alignment.Bytes(PAGES_PER_CALL, g)), Alignment.Bytes(p, g), Alignment.Bytes(base, g),
             Bind, Rotation(n, Calls(p)), i, Min(Alignment.Bytes(PAGES_PER_CALL, g), Alignment.Bytes(p, g) - Covered(p, g, i)));
  }

  lemma {:induction false} CoveredPages(p: nat, g: nat, i: nat)
    requires 0 < g && i <= Calls(p)
    ensures Covered(p, g, i) == Alignment.Bytes(Min(p, PAGES_PER_CALL * i), g)
  {
    SumConstant(Calls(p), g, i);
    Alignment.BytesOrdered(PAGES_PER_CALL * i, p, g);
    Alignment.BytesOrdered(p, PAGES_PER_CALL * i, g);
  }

  lemma {:induction false} RefusedLater(addr: nat, q: nat, g: nat)
    requires 0 < g
    ensures Refused(addr + Alignment.Bytes(q, g), g) <==> !Alignment.Whole(addr, g)
  {
    var base, next := Alignment.PageOf(addr, g), addr + Alignment.Bytes(q, g);
    Alignment.BytesAdd(base, q, g);
    Alignment.PageUnique(next, base + q, g);
    Alignment.PagesAreQuotients(next, g);
  }

  /** The calls start on page boundaries if the first one does, and none of them otherwise. */
  lemma {:induction false} RefusedIff(addr: nat, p: nat, g: nat, i: nat)
    requires 0 < g && i <= Calls(p)
    ensures Refused(addr + Covered(p, g, i), g) <==> !Alignment.Whole(addr, g)
  {
    CoveredPages(p, g, i);
    RefusedLater(addr, Min(p, PAGES_PER_CALL * i), g);
  }

  lemma {:induction false} UniformBinds(base: nat, p: nat, g: nat, n: nat)
    requires 0 < n
    ensures forall c :: c in UniformPlan(base, p, g, n, Calls(p)) ==> c.policy == Bind
  {
    PlanPolicy(Constant(Calls(p), Alignment.Bytes(PAGES_PER_CALL, g)), Alignment.Bytes(p, g), Alignment.Bytes(base, g),
               Bind, Rotation(n, Calls(p)), Calls(p));
  }

  /** It succeeds exactly on whole pages from a page boundary on, or on nothing. */
  method ForceUniformInterleave(addr: nat, len: nat, g: nat, n: nat) returns (r: Outcome<seq<Mbind>>)
    requires 0 < g && 0 < n
    ensures r.Ok? <==> len % g == 0 && (len == 0 || Alignment.Whole(addr, g))
    ensures r.Die? ==>
      r.message == if len % g != 0 then "Size of region must be a multiple of the page size" else "mbind error"
    ensures r.Ok? ==> r.value == UniformPlan(Alignment.PageOf(addr, g), Alignment.PageOf(len, g), g, n,
                                             Calls(Alignment.PageOf(len, g)))
    ensures r.Ok? ==> forall c :: c in r.value ==> c.policy == Bind
  {
    if len % g != 0 {
      return Die("Size of region must be a multiple of the page size");
    }
    Alignment.PagesAreQuotients(len, g);
    Alignment.BytesIsProduct(PAGES_PER_CALL, g);
    UniformBinds(Alignment.PageOf(addr, g), Alignment.PageOf(len, g), g, n);
    r := BindAll(addr, len, 64 * g, g, n, Alignment.PageOf(len, g));
  }

  /** Its loop. */
  method BindAll(addr: nat, len: nat, lenPerCall: nat, g: nat, n: nat, ghost p: nat) returns (r: Outcome<seq<Mbind>>)
    requires 0 < g && 0 < n && len == Alignment.Bytes(p, g)
    requires lenPerCall == Alignment.Bytes(PAGES_PER_CALL, g)
    ensures r.Ok? <==> len == 0 || Alignment.Whole(addr, g)
    ensures r.Die? ==> r.message == "mbind error"
    ensures r.Ok? ==> r.value == UniformPlan(Alignment.PageOf(addr, g), p, g, n, Calls(p))
  {
    var start, left := addr, len;
    var nodeToBind := 0;
    var calls := [];
    ghost var i := 0;
    ghost var base := Alignment.PageOf(addr, g);
    RoundsLast(p, g, 0);
    while left > 0
      invariant i <= Calls(p) && nodeToBind == i % n
      invariant left == len - Covered(p, g, i) && start == addr + Covered(p, g, i)
      invariant calls == UniformPlan(base, p, g, n, i)
      invariant left > 0 <==> i < Calls(p)
      invariant i > 0 ==> Alignment.Whole(addr, g)
      decreases left
    {
      RefusedIff(addr, p, g, i);
      if Refused(start, g) {
        return Die("mbind error");
      }
      var mbindLen := if lenPerCall < left then lenPerCall else left;
      UniformStep(base, p, g, n, i);
      RoundsLast(p, g, i + 1);
      NextTurn(i, n);
      calls := calls + [Mbind(start, mbindLen, Bind, {nodeToBind})];
      start := start + mbindLen;
      left := left - mbindLen;
      nodeToBind := (nodeToBind + 1) % n;
      i := i + 1;
    }
    r := Ok(calls);
  }

  // ----- balance -----

  /** Call i serves node i modulo n only. */
  ghost predicate InRotation(p: nat, n: nat, turns: seq<Turn>)
    requires 0 < n
  {
    AllServe(turns, Bind, Rotation(n, Calls(p))) && SomeoneServed(turns)
  }

  lemma {:induction false} CallGain(p: nat, n: nat, turns: seq<Turn>, k: nat, i: nat)
    requires k < n && i < Calls(p) && InRotation(p, n, turns)
    ensures var want := Constant(Calls(p), PAGES_PER_CALL);
            Pages(want, p, turns, i + 1, k) - Pages(want, p, turns, i, k)
            == if i % n == k then Min(p, PAGES_PER_CALL * (i + 1)) - Min(p, PAGES_PER_CALL * i) else 0
  {
    var want, served := Constant(Calls(p), PAGES_PER_CALL), Rotation(n, Calls(p));
    PagesAdded(want, p, turns, i, k);
    SumSixtyFours(Calls(p), i);
    SumSixtyFours(Calls(p), i + 1);
    assert Honours(turns[i], Bind, served[i]);
    DealSingle(Cut(want, p, i), Cut(want, p, i + 1), turns[i], i % n, k);
  }

  /** What node k holds after i calls: 64 pages for each of its turns, the last of which may be short. */
  function Held(p: nat, n: nat, k: nat, i: nat): int
    requires k < n && i <= Calls(p)
  {
    if PAGES_PER_CALL * i <= p then PAGES_PER_CALL * Served(i, n, k)
    else PAGES_PER_CALL * Served(i - 1, n, k) + (if (i - 1) % n == k then p - PAGES_PER_CALL * (i - 1) else 0)
  }

  lemma {:induction false} HeldStep(p: nat, n: nat, k: nat, i: nat)
    requires k < n && i < Calls(p)
    ensures Held(p, n, k, i + 1) - Held(p, n, k, i)
         == if i % n == k then Min(p, PAGES_PER_CALL * (i + 1)) - Min(p, PAGES_PER_CALL * i) else 0
  {
    ServedStep(i, n, k);
  }

  lemma {:induction false} NoneHeld(p: nat, n: nat, k: nat)
    requires k < n
    ensures Held(p, n, k, 0) == 0
  {
    Alignment.DivModUnique(0, n, 0, 0);
  }

  ghost predicate HeldAfter(p: nat, n: nat, turns: seq<Turn>, k: nat, i: nat, c: int)
    requires k < n && i <= Calls(p) && InRotation(p, n, turns)
  {
    c == Pages(Constant(Calls(p), PAGES_PER_CALL), p, turns, i, k) && c == Held(p, n, k, i)
  }

  lemma {:induction false} HeldNext(p: nat, n: nat, turns: seq<Turn>, k: nat, i: nat, before: int) returns (after: int)
    requires k < n && i < Calls(p) && InRotation(p, n, turns) && HeldAfter(p, n, turns, k, i, before)
    ensures HeldAfter(p, n, turns, k, i + 1, after)
  {
    CallGain(p, n, turns, k, i);
    HeldStep(p, n, k, i);
    after := Held(p, n, k, i + 1);
  }

  lemma {:induction false} HeldTo(p: nat, n: nat, turns: seq<Turn>, k: nat, i: nat) returns (c: int)
    requires k < n && i <= Calls(p) && InRotation(p, n, turns)
    ensures HeldAfter(p, n, turns, k, i, c)
    decreases i
  {
    if i == 0 {
      NoPages(Constant(Calls(p), PAGES_PER_CALL), p, turns, k);
      NoneHeld(p, n, k);
      c := 0;
    } else {
      c := HeldTo(p, n, turns, k, i - 1);
      c := HeldNext(p, n, turns, k, i - 1, c);
    }
  }

  /** Every node has its turns' pages after every call. */
  lemma {:induction false} PagesAfter(p: nat, n: nat, turns: seq<Turn>, k: nat, i: nat)
    requires k < n && i <= Calls(p) && InRotation(p, n, turns)
    ensures Pages(Constant(Calls(p), PAGES_PER_CALL), p, turns, i, k) == Held(p, n, k, i)
  {
    var c := HeldTo(p, n, turns, k, i);
  }

  /** Page j of the region goes to node j / 64 in rotation, whatever the kernel does. */
  lemma {:induction false} UniformOwner(base: nat, p: nat, g: nat, n: nat, choice: Choice, j: nat)
    requires 0 < g && 0 < n && j < p && Obeys(choice, UniformPlan(base, p, g, n, Calls(p)))
    ensures j < |Placed(UniformPlan(base, p, g, n, Calls(p)), choice, g)|
    ensures Placed(UniformPlan(base, p, g, n, Calls(p)), choice, g)[j] == (j / 64) % n
  {
    var c := Calls(p);
    var want, pages, served := Constant(c, Alignment.Bytes(PAGES_PER_CALL, g)), Constant(c, PAGES_PER_CALL), Rotation(n, c);
    var idle := IdleTurns(served, n);
    SixtyFoursInBytes(c, g);
    var turns := CallsAreRounds(want, pages, p, base, Bind, served, idle, choice, g);
    OwnerInRounds(p, n, turns, j);
  }

  lemma {:induction false} SixtyFoursInBytes(c: nat, g: nat)
    ensures InBytes(Constant(c, Alignment.Bytes(PAGES_PER_CALL, g)), Constant(c, PAGES_PER_CALL), g)
  {
  }

  lemma {:induction false} OwnerInRounds(p: nat, n: nat, turns: seq<Turn>, j: nat)
    requires 0 < n && j < p && InRotation(p, n, turns)
    ensures j < |Layout(Constant(Calls(p), PAGES_PER_CALL), p, turns, Calls(p))|
    ensures Layout(Constant(Calls(p), PAGES_PER_CALL), p, turns, Calls(p))[j] == (j / 64) % n
  {
    var c, want, i := Calls(p), Constant(Calls(p), PAGES_PER_CALL), j / 64;
    assert i < c;
    SumSixtyFours(c, i);
    SumSixtyFours(c, i + 1);
    LayoutAt(want, p, turns, i, c, j);
    assert Honours(turns[i], Bind, Rotation(n, c)[i]);
    var order := turns[i].order;
    assert order[(j + turns[i].phase) % |order|] in order;
  }

  /** No node ends up with more than 64 pages more than another. */
  lemma {:induction false} UniformBalanced(base: nat, p: nat, g: nat, n: nat, choice: Choice, k: nat, k': nat)
    requires 0 < g && k < n && k' < n && Obeys(choice, UniformPlan(base, p, g, n, Calls(p)))
    ensures var calls := UniformPlan(base, p, g, n, Calls(p));
            Owned(calls, choice, g, k) - Owned(calls, choice, g, k') <= PAGES_PER_CALL
  {
    var c := Calls(p);
    var want, pages, served := Constant(c, Alignment.Bytes(PAGES_PER_CALL, g)), Constant(c, PAGES_PER_CALL), Rotation(n, c);
    var idle := IdleTurns(served, n);
    var turns := CallsAreRounds(want, pages, p, base, Bind, served, idle, choice, g);
    PagesAfter(p, n, turns, k, c);
    PagesAfter(p, n, turns, k', c);
  }

  lemma {:induction false} IdleTurns(served: seq<set<int>>, n: nat) returns (idle: seq<Turn>)
    requires 0 < n && served == Rotation(n, |served|)
    ensures AllServe(idle, Bind, served)
  {
    idle := seq(|served|, i requires 0 <= i < |served| => Turn([i % n], 0));
    forall i | 0 <= i < |served| ensures Honours(idle[i], Bind, served[i]) {
    }
  }

  /** The calls tile the region. */
  lemma {:induction false} UniformTiles(base: nat, p: nat, g: nat, n: nat)
    requires 0 < g && 0 < n
    ensures Tile(UniformPlan(base, p, g, n, Calls(p)), Alignment.Bytes(base, g), Alignment.Bytes(base + p, g))
  {
    var c := Calls(p);
    RoundsLast(p, g, c);
    Alignment.BytesAdd(base, p, g);
    PlanTiles(Constant(c, Alignment.Bytes(PAGES_PER_CALL, g)), Alignment.Bytes(p, g), Alignment.Bytes(base, g),
              Bind, Rotation(n, c), c);
  }
}
