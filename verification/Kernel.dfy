/** What the library asks of the kernel, and what the kernel is assumed to do with it: an mbind over
    a page-aligned range that interleaves deals its pages round-robin over the node set of the call, in an
    order and from a starting point of the kernel's own; one that binds keeps them on nodes of the set, and
    which of them is the kernel's own choice for every page. */
module Kernel {
  import opened Dealing
  import Alignment

  datatype Policy = Bind | Interleave

  datatype Mbind = Mbind(start: nat, len: nat, policy: Policy, nodes: set<int>)

  /** mbind fails when the address is not on a page boundary. */
  predicate Refused(start: nat, g: nat)
    requires 0 < g
  {
    start % g != 0
  }

  /** The kernel's choice of order and starting point for each call. */
  type Choice = Mbind -> Turn

  ghost predicate Serves(t: Turn, nodes: set<int>) {
    && t.order != []
    && Distinct(t.order)
    && forall n :: n in t.order <==> n in nodes
  }

  /** What a policy leaves to the kernel. */
  ghost predicate Honours(t: Turn, policy: Policy, nodes: set<int>) {
    match policy
    case Interleave => Serves(t, nodes)
    case Bind => t.order != [] && forall n :: n in t.order ==> n in nodes
  }

  ghost predicate Obeys(choice: Choice, calls: seq<Mbind>) {
    forall c :: c in calls ==> Honours(choice(c), c.policy, c.nodes)
  }

  /** The owner of each page, call after call. */
  ghost function Placed(calls: seq<Mbind>, choice: Choice, g: nat): seq<int>
    requires 0 < g && Obeys(choice, calls)
  {
    if calls == [] then []
    else
      var last := calls[|calls| - 1];
      Placed(calls[..|calls| - 1], choice, g)
      + Deal(Alignment.PageOf(last.start, g), EndPage(last, g), choice(last))
  }

  /** The page after the last one of a call. */
  function EndPage(c: Mbind, g: nat): (p: nat)
    requires 0 < g
    ensures Alignment.PageOf(c.start, g) <= p
  {
    var lo, hi := Alignment.PageOf(c.start, g), Alignment.PageOf(c.start + c.len, g);
    Alignment.BytesOrdered(hi + 1, lo + 1, g);
    hi
  }

  /** What node n owns of the pages the calls place. */
  ghost function Owned(calls: seq<Mbind>, choice: Choice, g: nat, n: int): nat
    requires 0 < g && Obeys(choice, calls)
  {
    multiset(Placed(calls, choice, g))[n]
  }

  /** Calls that cover [start, end) in order, each from where the last one stopped. */
  ghost predicate Tile(calls: seq<Mbind>, start: nat, end: nat) {
    if calls == [] then start == end
    else
      var last := calls[|calls| - 1];
      && 0 < last.len
      && last.start + last.len == end
      && Tile(calls[..|calls| - 1], start, last.start)
  }

  lemma {:induction false} DealShifted(s: nat, lo: nat, hi: nat, t: Turn)
    requires lo <= hi && t.order != []
    ensures Deal(s + lo, s + hi, t) == Deal(lo, hi, Turn(t.order, t.phase + s))
  {
    var shifted, plain := Deal(s + lo, s + hi, t), Deal(lo, hi, Turn(t.order, t.phase + s));
    forall j | 0 <= j < |plain| ensures shifted[j] == plain[j] {
      assert s + lo + j + t.phase == lo + j + (t.phase + s);
    }
  }

  // ----- node sets -----

  function AllNodes(n: nat): (s: set<int>)
    ensures forall i :: i in s <==> 0 <= i < n
  {
    if n == 0 then {} else AllNodes(n - 1) + {n - 1}
  }

  lemma {:induction false} AllNodesSize(n: nat)
    ensures |AllNodes(n)| == n
  {
    if n > 0 {
      AllNodesSize(n - 1);
    }
  }

  function Elements(s: seq<int>): set<int> {
    set n | n in s
  }

  lemma {:induction false} DistinctSize(s: seq<int>)
    requires Distinct(s)
    ensures |Elements(s)| == |s|
  {
    if s != [] {
      var t, n := s[..|s| - 1], s[|s| - 1];
      DistinctPrefix(s, |s| - 1);
      DistinctSize(t);
      assert s == t + [n];
      assert Elements(s) == Elements(t) + {n};
    }
  }

  /** N distinct ids below N are all of them. */
  lemma {:induction false} DistinctIsAll(s: seq<int>)
    requires Distinct(s) && forall n :: n in s ==> 0 <= n < |s|
    ensures Elements(s) == AllNodes(|s|)
  {
    AllNodesSize(|s|);
    DistinctSize(s);
    SubsetOfSameSize(Elements(s), AllNodes(|s|));
  }

  lemma {:induction false} SubsetOfSameSize(a: set<int>, b: set<int>)
    requires a <= b && |a| == |b|
    ensures a == b
  {
    assert b == a + (b - a);
    assert |b - a| == 0;
  }

  /** An order that serves exactly the nodes of a list is as long as the list. */
  lemma {:induction false} ServesList(t: Turn, ids: seq<int>)
    requires Distinct(ids) && Serves(t, Elements(ids))
    ensures TurnOver(t, ids)
  {
    DistinctSize(ids);
    DistinctSize(t.order);
    assert forall n :: n in t.order <==> n in ids;
    assert Elements(t.order) == Elements(ids);
  }
}
