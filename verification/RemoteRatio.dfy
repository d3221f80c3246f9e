/** Two-node migration by ratio: which pages move_pages_remote sends to the remote node. */
module RemoteRatio {
  import opened Dealing

  /** MAX_NODES of the library. */
  const MAX_NODES: nat := 2

  /** Where the alternating pages end, in the two halves of the ratio's range. */
  function Interleaved(p: nat, r: real): real {
    if r <= 50.0 then Times(p, r / 100.0) * MAX_NODES as real
    else Times(p, (100.0 - r) / 100.0) * MAX_NODES as real
  }

  /** Up to 50 percent every other page of a prefix is remote; above it all pages are, except every
      other page of a shrinking prefix. */
  predicate Remote(p: nat, r: real, i: nat) {
    if r <= 50.0 then (i as real) < Interleaved(p, r) && i % 2 == 1
    else (i as real) < Interleaved(p, r) ==> i % 2 == 1
  }

  function Assigned(p: nat, r: real, remote: int, local: int, i: nat): (nodes: seq<int>)
    ensures |nodes| == i
    ensures forall j :: 0 <= j < i ==> nodes[j] == if Remote(p, r, j) then remote else local
  {
    if i == 0 then []
    else Assigned(p, r, remote, local, i - 1) + [if Remote(p, r, i - 1) then remote else local]
  }

  method MovePagesRemote(p: nat, r: real, remote: int, local: int) returns (nodes: array<int>)
    ensures nodes[..] == Assigned(p, r, remote, local, p)
    ensures r <= 50.0 ==> forall j :: 0 <= j < p ==>
      nodes[j] == if j % 2 == 1 && (j as real) < 2.0 * Times(p, r / 100.0) then remote else local
    ensures r > 50.0 ==> forall j :: 0 <= j < p ==>
      nodes[j] == if j % 2 == 0 && (j as real) < 2.0 * Times(p, (100.0 - r) / 100.0) then local else remote
  {
    nodes := new int[p];
    if r <= 50.0 {
      var interleavedPages := Times(p, r / 100.0) * MAX_NODES as real;
      for i := 0 to p
        invariant forall j :: 0 <= j < i ==> nodes[j] == if Remote(p, r, j) then remote else local
      {
        if (i as real) < interleavedPages {
          if i % 2 == 0 {
            nodes[i] := local;
          } else {
            nodes[i] := remote;
          }
        } else {
          nodes[i] := local;
        }
      }
    } else {
      var interleavedPages := Times(p, (100.0 - r) / 100.0) * MAX_NODES as real;
      for i := 0 to p
        invariant forall j :: 0 <= j < i ==> nodes[j] == if Remote(p, r, j) then remote else local
      {
        if (i as real) < interleavedPages {
          if i % 2 == 0 {
            nodes[i] := local;
          } else {
            nodes[i] := remote;
          }
        } else {
          nodes[i] := remote;
        }
      }
    }
  }

  /** Raising the ratio never moves a page back, not even across 50. */
  lemma {:induction false} RemoteSetGrows(p: nat, r: real, r': real, i: nat)
    requires r <= r' && Remote(p, r, i)
    ensures Remote(p, r', i)
  {
    if r' <= 50.0 {
      TimesMonotone(p, r' / 100.0, r / 100.0);
    } else if r > 50.0 {
      TimesMonotone(p, (100.0 - r) / 100.0, (100.0 - r') / 100.0);
    }
  }

  // ----- how many -----

  function RemoteCountBelow(p: nat, r: real, remote: int, local: int, i: nat): (c: nat)
    ensures c <= i
  {
    MultisetSize(Assigned(p, r, remote, local, i), remote);
    multiset(Assigned(p, r, remote, local, i))[remote]
  }

  function LocalCountBelow(p: nat, r: real, remote: int, local: int, i: nat): nat {
    i - RemoteCountBelow(p, r, remote, local, i)
  }

  lemma {:induction false} MultisetSize(s: seq<int>, n: int)
    ensures multiset(s)[n] <= |s|
  {
    if s != [] {
      MultisetSize(s[..|s| - 1], n);
      assert s == s[..|s| - 1] + [s[|s| - 1]];
    }
  }

  /** One more page, one more remote page if it is one. */
  lemma {:induction false} CountStep(p: nat, r: real, remote: int, local: int, i: nat)
    requires remote != local
    ensures RemoteCountBelow(p, r, remote, local, i + 1)
         == RemoteCountBelow(p, r, remote, local, i) + (if Remote(p, r, i) then 1 else 0)
  {
  }

  lemma {:induction false} LowerStep(p: nat, r: real, remote: int, local: int, i: nat, t: real)
    requires r <= 50.0 && remote != local && t == Times(p, r / 100.0)
    ensures RemoteCountBelow(p, r, remote, local, i + 1) == RemoteCountBelow(p, r, remote, local, i)
         + (if (i as real) < 2.0 * t && i % 2 == 1 then 1 else 0)
  {
    CountStep(p, r, remote, local, i);
  }

  lemma {:induction false} UpperStep(p: nat, r: real, remote: int, local: int, i: nat, t: real)
    requires r > 50.0 && remote != local && t == Times(p, (100.0 - r) / 100.0)
    ensures LocalCountBelow(p, r, remote, local, i + 1) == LocalCountBelow(p, r, remote, local, i)
         + (if (i as real) < 2.0 * t && i % 2 == 0 then 1 else 0)
  {
    CountStep(p, r, remote, local, i);
  }

  /** `c` odd numbers below i lie below 2t. */
  ghost predicate OddBelow(i: nat, c: nat, t: real) {
    if i as real <= 2.0 * t then c == i / 2 else t - 0.5 <= c as real < t + 0.5
  }

  /** `c` even numbers below i lie below 2t. */
  ghost predicate EvenBelow(i: nat, c: nat, t: real) {
    if i as real <= 2.0 * t then c == (i + 1) / 2 else t <= c as real < t + 1.0
  }

  lemma {:induction false} OddStep(i: nat, c: nat, c': nat, t: real)
    requires OddBelow(i, c, t) && c' == c + (if (i as real) < 2.0 * t && i % 2 == 1 then 1 else 0)
    ensures OddBelow(i + 1, c', t)
  {
    var h := i / 2;
    assert i as real == 2.0 * h as real + (i % 2) as real;
  }

  lemma {:induction false} EvenStep(i: nat, c: nat, c': nat, t: real)
    requires EvenBelow(i, c, t) && c' == c + (if (i as real) < 2.0 * t && i % 2 == 0 then 1 else 0)
    ensures EvenBelow(i + 1, c', t)
  {
    var h := i / 2;
    assert i as real == 2.0 * h as real + (i % 2) as real;
  }

  /** How many j below i have the given parity and lie below 2t. */
  function Alternate(i: nat, parity: nat, t: real): nat {
    if i == 0 then 0
    else Alternate(i - 1, parity, t) + (if ((i - 1) as real) < 2.0 * t && (i - 1) % 2 == parity then 1 else 0)
  }

  lemma {:induction false} OddCount(i: nat, t: real)
    requires 0.0 <= t
    ensures OddBelow(i, Alternate(i, 1, t), t)
  {
    if i > 0 {
      OddCount(i - 1, t);
      OddStep(i - 1, Alternate(i - 1, 1, t), Alternate(i, 1, t), t);
    }
  }

  lemma {:induction false} EvenCount(i: nat, t: real)
    requires 0.0 <= t
    ensures EvenBelow(i, Alternate(i, 0, t), t)
  {
    if i > 0 {
      EvenCount(i - 1, t);
      EvenStep(i - 1, Alternate(i - 1, 0, t), Alternate(i, 0, t), t);
    }
  }

  lemma {:induction false} AlternateStep(i: nat, parity: nat, t: real)
    ensures Alternate(i + 1, parity, t)
         == Alternate(i, parity, t) + (if (i as real) < 2.0 * t && i % 2 == parity then 1 else 0)
  {
  }

  /** In the lower half the remote pages are the odd ones below the boundary. */
  lemma {:induction false} LowerCount(p: nat, r: real, remote: int, local: int, i: nat, t: real)
    requires r <= 50.0 && remote != local && t == Times(p, r / 100.0)
    ensures RemoteCountBelow(p, r, remote, local, i) == Alternate(i, 1, t)
    decreases i
  {
    if i > 0 {
      LowerCount(p, r, remote, local, i - 1, t);
      LowerStep(p, r, remote, local, i - 1, t);
      AlternateStep(i - 1, 1, t);
    }
  }

  /** In the upper half the local pages are the even ones below the boundary. */
  lemma {:induction false} UpperCount(p: nat, r: real, remote: int, local: int, i: nat, t: real)
    requires r > 50.0 && remote != local && t == Times(p, (100.0 - r) / 100.0)
    ensures LocalCountBelow(p, r, remote, local, i) == Alternate(i, 0, t)
    decreases i
  {
    if i > 0 {
      UpperCount(p, r, remote, local, i - 1, t);
      UpperStep(p, r, remote, local, i - 1, t);
      AlternateStep(i - 1, 0, t);
    }
  }

  lemma {:induction false} LowerRemote(p: nat, r: real, remote: int, local: int)
    requires 0.0 <= r <= 50.0 && remote != local
    ensures var c, t := RemoteCountBelow(p, r, remote, local, p) as real, Times(p, r / 100.0); t - 0.5 <= c < t + 0.5
  {
    HalfOfAll(p, r / 100.0);
    LowerCount(p, r, remote, local, p, Times(p, r / 100.0));
    OddCount(p, Times(p, r / 100.0));
  }

  lemma {:induction false} UpperRemote(p: nat, r: real, remote: int, local: int)
    requires 50.0 < r <= 100.0 && remote != local
    ensures var c, t := RemoteCountBelow(p, r, remote, local, p) as real, Times(p, r / 100.0); t - 1.0 < c <= t
  {
    var t := Times(p, (100.0 - r) / 100.0);
    TimesDistributes(p, 1.0, r / 100.0);
    TimesOne(p);
    assert (100.0 - r) / 100.0 == 1.0 - r / 100.0;
    HalfOfAll(p, (100.0 - r) / 100.0);
    UpperCount(p, r, remote, local, p, t);
    EvenCount(p, t);
  }

  /** No more than half of the pages, twice, are no more than all. */
  lemma {:induction false} HalfOfAll(p: nat, x: real)
    requires 0.0 <= x <= 0.5
    ensures 0.0 <= Times(p, x) && 2.0 * Times(p, x) <= p as real
  {
    TimesOne(p);
    TimesDistributes(p, 0.5, 0.5);
    TimesMonotone(p, 0.5, x);
    TimesMonotone(p, x, 0.0);
    TimesDistributes(p, 0.0, 0.0);
  }

  /** The number of remote pages is r percent of all pages: to the nearest page with ties down for
      r <= 50, and rounded down above. */
  lemma {:induction false} RemoteCount(p: nat, r: real, remote: int, local: int)
    requires 0.0 <= r <= 100.0 && remote != local
    ensures var c, t := multiset(Assigned(p, r, remote, local, p))[remote] as real, Times(p, r / 100.0);
            if r <= 50.0 then t - 0.5 <= c < t + 0.5 else t - 1.0 < c <= t
  {
    if r <= 50.0 {
      LowerRemote(p, r, remote, local);
    } else {
      UpperRemote(p, r, remote, local);
    }
  }

  // ----- the nodes the source uses -----

  /** Both branches of the source choose node 0 twice. */
  function RemoteNode(workers: int): int {
    if workers == 2 then 0 else 0
  }

  function LocalNode(workers: int): int {
    if workers == 2 then 0 else 0
  }

  /** As configured, every ratio sends every page to the same node: the counts above need two nodes. */
  lemma {:induction false} ConfiguredNodesCoincide(p: nat, r: real, r': real, workers: int, i: nat)
    requires i <= p
    ensures Assigned(p, r, RemoteNode(workers), LocalNode(workers), i)
         == Assigned(p, r', RemoteNode(workers), LocalNode(workers), i)
    ensures forall j :: 0 <= j < i ==> Assigned(p, r, RemoteNode(workers), LocalNode(workers), i)[j] == 0
  {
    if i > 0 { ConfiguredNodesCoincide(p, r, r', workers, i - 1); }
  }
}
