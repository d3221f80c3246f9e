/** The region tracker as a state machine over values: what each handler does to the segment list, and
    what every admissible run of handlers keeps. */
module RegionTracker {
  import opened Segments
  import Alignment

  /** The list, the key of the heap segment, the next free key, and the keys announced to the mode. */
  datatype Tracker = Tracker(segs: seq<Seg>, heap: nat, nextKey: nat, added: seq<nat>, removed: seq<nat>)

  // ----- the list operations -----

  function WithEnd(segs: seq<Seg>, key: nat, end: int): (r: seq<Seg>)
    ensures |r| == |segs|
    ensures forall i :: 0 <= i < |segs| ==> r[i] == if segs[i].key == key then segs[i].(end := end) else segs[i]
  {
    if segs == [] then []
    else
      var last := segs[|segs| - 1];
      WithEnd(segs[..|segs| - 1], key, end) + [if last.key == key then last.(end := end) else last]
  }

  /** The segments that do not contain the address, in order. */
  function Kept(segs: seq<Seg>, ptr: int): seq<Seg> {
    if segs == [] then []
    else
      var last := segs[|segs| - 1];
      Kept(segs[..|segs| - 1], ptr) + (if last.Contains(ptr) then [] else [last])
  }

  /** The keys of those that do. */
  function Dropped(segs: seq<Seg>, ptr: int): seq<nat> {
    if segs == [] then []
    else
      var last := segs[|segs| - 1];
      Dropped(segs[..|segs| - 1], ptr) + (if last.Contains(ptr) then [last.key] else [])
  }

  function HasKey(segs: seq<Seg>, key: nat): bool {
    exists i :: 0 <= i < |segs| && segs[i].key == key
  }

  predicate HeapContains(t: Tracker, addr: int) {
    exists i :: 0 <= i < |t.segs| && t.segs[i].key == t.heap && t.segs[i].Contains(addr)
  }

  function UpdateHeap(t: Tracker, brk: int): Tracker {
    t.(segs := WithEnd(t.segs, t.heap, brk))
  }

  function Append(t: Tracker, start: nat, end: int, kind: Kind): Tracker {
    t.(segs := t.segs + [Seg(t.nextKey, start, end, kind)], nextKey := t.nextKey + 1, added := t.added + [t.nextKey])
  }

  function Remove(t: Tracker, ptr: int): Tracker {
    t.(segs := Kept(t.segs, ptr), removed := t.removed + Dropped(t.segs, ptr))
  }

  // ----- the handlers -----

  /** A handler call together with what the allocator and the kernel answered: the block and the
      break after the call. */
  datatype Event =
    | EMalloc(result: nat, size: nat, brk: int)
    | ECalloc(result: nat, nmemb: nat, size: nat, brk: int)
    | ERealloc(ptr: nat, result: nat, size: nat, brk: int)
    | EFree(ptr: nat, brk: int)
    | EMemalign(result: nat, size: nat, brk: int)
    | EMmap(result: nat, length: nat)
    | EMunmap(addr: nat, length: nat)

  function Allocate(t: Tracker, result: nat, bytes: nat, brk: int, kind: Kind): Tracker {
    var t1 := UpdateHeap(t, brk);
    if HeapContains(t1, result) then t1 else Append(t1, result, result + bytes - 1, kind)
  }

  function Reallocate(t: Tracker, ptr: nat, result: nat, size: nat, brk: int): Tracker {
    var wasInHeap := HeapContains(t, ptr);
    var t1 := UpdateHeap(t, brk);
    var isInHeap := HeapContains(t1, result);
    var t2 := if wasInHeap then t1 else Remove(t1, ptr);
    if isInHeap then t2 else Append(t2, result, result + size - 1, Realloc)
  }

  lemma {:induction false} ReallocateInSteps(t: Tracker, t1: Tracker, t2: Tracker, t3: Tracker, was: bool, now: bool,
                                             ptr: nat, result: nat, size: nat, brk: int)
    requires t1 == UpdateHeap(t, brk) && was == HeapContains(t, ptr) && now == HeapContains(t1, result)
    requires t2 == (if was then t1 else Remove(t1, ptr))
    requires t3 == (if now then t2 else Append(t2, result, result + size - 1, Realloc))
    ensures t3 == Step(t, ERealloc(ptr, result, size, brk))
  {
  }

  function Free(t: Tracker, ptr: nat, brk: int): Tracker {
    if HeapContains(t, ptr) then UpdateHeap(t, brk) else Remove(t, ptr)
  }

  function Step(t: Tracker, e: Event): Tracker {
    match e
    case EMalloc(result, size, brk) => Allocate(t, result, size, brk, Malloc)
    case ECalloc(result, nmemb, size, brk) => Allocate(t, result, Alignment.Bytes(nmemb, size), brk, Calloc)
    case ERealloc(ptr, result, size, brk) => Reallocate(t, ptr, result, size, brk)
    case EFree(ptr, brk) => Free(t, ptr, brk)
    case EMemalign(result, size, brk) => Allocate(t, result, size, brk, Memalign)
    case EMmap(result, length) => Append(t, result, result + length - 1, Mmap)
    case EMunmap(addr, length) => Remove(t, addr)
  }

  // ----- the live blocks -----

  type Live = map<nat, nat>

  function LiveStep(live: Live, e: Event): Live {
    match e
    case EMalloc(result, size, _) => live[result := size]
    case ECalloc(result, nmemb, size, _) => live[result := Alignment.Bytes(nmemb, size)]
    case ERealloc(ptr, result, size, _) => (live - {ptr})[result := size]
    case EFree(ptr, _) => live - {ptr}
    case EMemalign(result, size, _) => live[result := size]
    case EMmap(result, length) => live[result := length]
    case EMunmap(addr, _) => live - {addr}
  }

  // ----- what is assumed of the allocator and the kernel -----

  /** The block overlaps nothing in the list. */
  ghost predicate Apart(segs: seq<Seg>, start: nat, end: int) {
    forall i :: 0 <= i < |segs| ==> ApartFrom(segs[i], start, end)
  }

  ghost predicate ApartFrom(s: Seg, start: nat, end: int) {
    end < s.start || s.end < start
  }

  /** The break moves to a place where the heap segment overlaps no other segment and still holds
      every live block it held. */
  ghost predicate BreakFits(t: Tracker, live: Live, brk: int) {
    && (forall i :: 0 <= i < |t.segs| && t.segs[i].key == t.heap ==> t.segs[i].start <= brk)
    && (forall i, j :: 0 <= i < |t.segs| && 0 <= j < |t.segs| && t.segs[i].key == t.heap && t.segs[j].key != t.heap
          ==> ApartFrom(t.segs[j], t.segs[i].start, brk))
    && (forall p :: p in live && HeapContains(t, p) ==> p + live[p] - 1 <= brk)
  }

  /** A new block: non-empty, not at address 0, not live already, and either inside the heap or apart
      from everything tracked. */
  ghost predicate Fresh(t: Tracker, live: Live, start: nat, size: nat) {
    && 0 < start && 0 < size && start !in live
    && if HeapContains(t, start) then HeapContains(t, start + size - 1) else Apart(t.segs, start, start + size - 1)
  }

  ghost predicate AllocationFits(t: Tracker, live: Live, result: nat, bytes: nat, brk: int) {
    BreakFits(t, live, brk) && Fresh(UpdateHeap(t, brk), live, result, bytes)
  }

  ghost predicate Admissible(t: Tracker, live: Live, e: Event) {
    match e
    case EMalloc(result, size, brk) => AllocationFits(t, live, result, size, brk)
    case ECalloc(result, nmemb, size, brk) => AllocationFits(t, live, result, Alignment.Bytes(nmemb, size), brk)
    case EMemalign(result, size, brk) => AllocationFits(t, live, result, size, brk)
    case ERealloc(ptr, result, size, brk) =>
      && (ptr == 0 || ptr in live)
      && BreakFits(t, live - {ptr}, brk)
      && var t1 := UpdateHeap(t, brk);
         Fresh(if HeapContains(t, ptr) then t1 else Remove(t1, ptr), live - {ptr}, result, size)
    case EFree(ptr, brk) =>
      && (ptr == 0 || ptr in live)
      && (HeapContains(t, ptr) ==> BreakFits(t, live - {ptr}, brk))
    case EMmap(result, length) => !HeapContains(t, result) && Fresh(t, live, result, length)
    case EMunmap(addr, length) => addr in live && live[addr] == length && !HeapContains(t, addr)
  }

  // ----- the invariant -----

  ghost predicate Rising(segs: seq<Seg>) {
    forall i, j :: 0 <= i < j < |segs| ==> Before(segs, i, j)
  }

  ghost predicate Before(segs: seq<Seg>, i: nat, j: nat)
    requires i < |segs| && j < |segs|
  {
    segs[i].key < segs[j].key
  }

  ghost predicate PairwiseDisjoint(segs: seq<Seg>) {
    forall i, j :: 0 <= i < j < |segs| ==> PairDisjoint(segs, i, j)
  }

  ghost predicate PairDisjoint(segs: seq<Seg>, i: nat, j: nat)
    requires i < |segs| && j < |segs|
  {
    segs[i].IsDisjointWith(segs[j])
  }

  /** A segment with a boot key, or a live block with its exact byte range. */
  ghost predicate Backed(s: Seg, live: Live, boot: nat) {
    s.key < boot || (s.start in live && s.end == s.start + live[s.start] - 1 && s.kind != Stack)
  }

  ghost predicate TrackedAs(segs: seq<Seg>, boot: nat, start: nat) {
    exists i :: 0 <= i < |segs| && segs[i].start == start && boot <= segs[i].key
  }

  ghost predicate WellFormed(t: Tracker, boot: nat) {
    && Rising(t.segs)
    && (forall i :: 0 <= i < |t.segs| ==> t.segs[i].key < t.nextKey && 0 < t.segs[i].start <= t.segs[i].end)
    && HasKey(t.segs, t.heap) && t.heap < boot <= t.nextKey
  }

  /** Apart from the boot segments, the list is exactly the live blocks outside the heap. */
  ghost predicate Refines(t: Tracker, live: Live, boot: nat) {
    && (forall i :: 0 <= i < |t.segs| ==> Backed(t.segs[i], live, boot))
    && (forall p :: p in live ==> LiveBlock(t, live, boot, p))
  }

  ghost predicate LiveBlock(t: Tracker, live: Live, boot: nat, p: nat)
    requires p in live
  {
    && 0 < p && 0 < live[p]
    && if HeapContains(t, p) then HeapContains(t, p + live[p] - 1) else TrackedAs(t.segs, boot, p)
  }

  /** The keys of the announced segments of the list: all but the stack. */
  function AnnouncedKeys(segs: seq<Seg>): multiset<nat> {
    if segs == [] then multiset{}
    else
      var last := segs[|segs| - 1];
      AnnouncedKeys(segs[..|segs| - 1]) + (if last.kind == Stack then multiset{} else multiset{last.key})
  }

  ghost predicate Ledger(t: Tracker) {
    multiset(t.added) == multiset(t.removed) + AnnouncedKeys(t.segs)
  }

  ghost predicate Inv(t: Tracker, live: Live, boot: nat) {
    WellFormed(t, boot) && PairwiseDisjoint(t.segs) && Refines(t, live, boot) && Ledger(t)
  }

  // ----- facts about the list -----

  lemma {:induction false} KeptNone(segs: seq<Seg>, ptr: int)
    requires forall j :: 0 <= j < |segs| ==> !segs[j].Contains(ptr)
    ensures Kept(segs, ptr) == segs && Dropped(segs, ptr) == []
  {
    if segs != [] {
      KeptNone(segs[..|segs| - 1], ptr);
      assert segs == segs[..|segs| - 1] + [segs[|segs| - 1]];
    }
  }

  function Without(segs: seq<Seg>, k: nat): (r: seq<Seg>)
    requires k < |segs|
    ensures |r| == |segs| - 1
    ensures forall i :: 0 <= i < |r| ==> r[i] == segs[if i < k then i else i + 1]
  {
    segs[..k] + segs[k + 1..]
  }

  /** When one segment contains the address, the list loses that one and nothing else. */
  lemma {:induction false} KeptOne(segs: seq<Seg>, ptr: int, k: nat)
    requires k < |segs| && segs[k].Contains(ptr)
    requires forall j :: 0 <= j < |segs| && j != k ==> !segs[j].Contains(ptr)
    ensures Kept(segs, ptr) == Without(segs, k) && Dropped(segs, ptr) == [segs[k].key]
  {
    var n := |segs| - 1;
    var init := segs[..n];
    if k == n {
      KeptNone(init, ptr);
      assert Without(segs, k) == init;
    } else {
      KeptOne(init, ptr, k);
      assert Without(segs, k) == Without(init, k) + [segs[n]];
    }
  }

  /** Nothing that remains contains the address. */
  lemma {:induction false} KeptAvoids(segs: seq<Seg>, ptr: int, i: nat)
    requires i < |Kept(segs, ptr)|
    ensures !Kept(segs, ptr)[i].Contains(ptr)
  {
    var n := |segs| - 1;
    if i < |Kept(segs[..n], ptr)| {
      KeptAvoids(segs[..n], ptr, i);
    }
  }

  lemma {:induction false} AnnouncedAppend(segs: seq<Seg>, s: Seg)
    ensures AnnouncedKeys(segs + [s]) == AnnouncedKeys(segs) + (if s.kind == Stack then multiset{} else multiset{s.key})
  {
    assert (segs + [s])[..|segs|] == segs;
  }

  lemma {:induction false} SwapLast(a: multiset<nat>, b: multiset<nat>, c: multiset<nat>)
    ensures a + b + c == a + c + b
  {
  }

  lemma {:induction false} AnnouncedWithout(segs: seq<Seg>, k: nat)
    requires k < |segs| && segs[k].kind != Stack
    ensures AnnouncedKeys(segs) == AnnouncedKeys(Without(segs, k)) + multiset{segs[k].key}
  {
    var n := |segs| - 1;
    var init := segs[..n];
    if k == n {
      assert Without(segs, k) == init;
    } else {
      AnnouncedWithout(init, k);
      assert Without(segs, k) == Without(init, k) + [segs[n]];
      AnnouncedAppend(Without(init, k), segs[n]);
      SwapLast(AnnouncedKeys(Without(init, k)), multiset{segs[k].key},
               if segs[n].kind == Stack then multiset{} else multiset{segs[n].key});
    }
  }

  lemma {:induction false} AnnouncedWithEnd(segs: seq<Seg>, key: nat, end: int)
    ensures AnnouncedKeys(WithEnd(segs, key, end)) == AnnouncedKeys(segs)
  {
    if segs != [] {
      AnnouncedWithEnd(segs[..|segs| - 1], key, end);
      var r := WithEnd(segs, key, end);
      assert r[..|r| - 1] == WithEnd(segs[..|segs| - 1], key, end);
    }
  }

  lemma {:induction false} DisjointAt(segs: seq<Seg>, i: nat, j: nat)
    requires PairwiseDisjoint(segs) && i < |segs| && j < |segs| && i != j
    requires segs[i].start <= segs[i].end && segs[j].start <= segs[j].end
    ensures ApartFrom(segs[i], segs[j].start, segs[j].end)
  {
    assert if i < j then PairDisjoint(segs, i, j) else PairDisjoint(segs, j, i);
  }

  lemma {:induction false} SameKey(segs: seq<Seg>, i: nat, j: nat)
    requires Rising(segs) && i < |segs| && j < |segs| && segs[i].key == segs[j].key
    ensures i == j
  {
    assert i < j ==> Before(segs, i, j);
    assert j < i ==> Before(segs, j, i);
  }

  /** There is one heap segment. */
  lemma {:induction false} HeapIndex(t: Tracker, boot: nat) returns (h: nat)
    requires WellFormed(t, boot)
    ensures h < |t.segs| && t.segs[h].key == t.heap
    ensures forall i :: 0 <= i < |t.segs| && i != h ==> t.segs[i].key != t.heap
    ensures forall a: int :: HeapContains(t, a) <==> t.segs[h].Contains(a)
  {
    h :| 0 <= h < |t.segs| && t.segs[h].key == t.heap;
    forall i | 0 <= i < |t.segs| && i != h ensures t.segs[i].key != t.heap {
      if t.segs[i].key == t.heap { SameKey(t.segs, i, h); }
    }
  }

  // ----- moving the break -----

  lemma {:induction false} UpdateHeapWellFormed(t: Tracker, live: Live, boot: nat, brk: int) returns (h: nat)
    requires WellFormed(t, boot) && BreakFits(t, live, brk)
    ensures WellFormed(UpdateHeap(t, brk), boot)
    ensures h < |t.segs| && t.segs[h].key == t.heap && UpdateHeap(t, brk).segs == t.segs[h := t.segs[h].(end := brk)]
    ensures forall a: int :: HeapContains(t, a) <==> t.segs[h].Contains(a)
    ensures forall a: int :: HeapContains(UpdateHeap(t, brk), a) <==> t.segs[h].start <= a <= brk
    ensures forall j :: 0 <= j < |t.segs| && j != h ==> t.segs[j].key != t.heap && ApartFrom(t.segs[j], t.segs[h].start, brk)
  {
    h := HeapIndex(t, boot);
    RisingWithEnd(t.segs, t.heap, brk);
    assert UpdateHeap(t, brk).segs[h].key == t.heap;
    var h' := HeapIndex(UpdateHeap(t, brk), boot);
    SameKey(UpdateHeap(t, brk).segs, h, h');
  }

  lemma {:induction false} UpdateHeapDisjoint(t: Tracker, h: nat, brk: int)
    requires PairwiseDisjoint(t.segs) && h < |t.segs| && t.segs[h].start <= brk
    requires forall i :: 0 <= i < |t.segs| ==> t.segs[i].start <= t.segs[i].end
    requires forall j :: 0 <= j < |t.segs| && j != h ==> ApartFrom(t.segs[j], t.segs[h].start, brk)
    ensures PairwiseDisjoint(t.segs[h := t.segs[h].(end := brk)])
  {
    var r := t.segs[h := t.segs[h].(end := brk)];
    forall i, j | 0 <= i < j < |r| ensures PairDisjoint(r, i, j) {
      assert PairDisjoint(t.segs, i, j);
    }
  }

  lemma {:induction false} UpdateHeapRefines(t: Tracker, live: Live, boot: nat, brk: int)
    requires WellFormed(t, boot) && Refines(t, live, boot) && BreakFits(t, live, brk)
    ensures Refines(UpdateHeap(t, brk), live, boot)
    ensures forall p :: p in live ==> (HeapContains(UpdateHeap(t, brk), p) <==> HeapContains(t, p))
  {
    var t' := UpdateHeap(t, brk);
    var h := UpdateHeapWellFormed(t, live, boot, brk);
    forall i | 0 <= i < |t'.segs| ensures Backed(t'.segs[i], live, boot) {
      assert Backed(t.segs[i], live, boot);
    }
    forall p | p in live ensures LiveBlock(t', live, boot, p) && (HeapContains(t', p) <==> HeapContains(t, p)) {
      assert LiveBlock(t, live, boot, p);
      if !HeapContains(t, p) {
        var k :| 0 <= k < |t.segs| && t.segs[k].start == p && boot <= t.segs[k].key;
        assert Backed(t.segs[k], live, boot);
        assert t'.segs[k].start == p && boot <= t'.segs[k].key;
      }
    }
  }

  /** Moving the break keeps the invariant, and no live block enters or leaves the heap. */
  lemma {:induction false} UpdateHeapKeeps(t: Tracker, live: Live, boot: nat, brk: int)
    requires Inv(t, live, boot) && BreakFits(t, live, brk)
    ensures Inv(UpdateHeap(t, brk), live, boot)
    ensures forall p :: p in live ==> (HeapContains(UpdateHeap(t, brk), p) <==> HeapContains(t, p))
  {
    var h := UpdateHeapWellFormed(t, live, boot, brk);
    UpdateHeapDisjoint(t, h, brk);
    UpdateHeapRefines(t, live, boot, brk);
    AnnouncedWithEnd(t.segs, t.heap, brk);
  }

  lemma {:induction false} RisingWithEnd(segs: seq<Seg>, key: nat, end: int)
    requires Rising(segs)
    ensures Rising(WithEnd(segs, key, end))
  {
    var r := WithEnd(segs, key, end);
    forall i, j | 0 <= i < j < |r| ensures Before(r, i, j) {
      assert Before(segs, i, j);
    }
  }

  // ----- adding a block -----

  lemma {:induction false} AppendOrdered(segs: seq<Seg>, s: Seg)
    requires Rising(segs) && PairwiseDisjoint(segs) && s.start <= s.end
    requires forall i :: 0 <= i < |segs| ==>
      segs[i].key < s.key && segs[i].start <= segs[i].end && ApartFrom(segs[i], s.start, s.end)
    ensures Rising(segs + [s]) && PairwiseDisjoint(segs + [s])
  {
    var r := segs + [s];
    forall i, j | 0 <= i < j < |r| ensures Before(r, i, j) && PairDisjoint(r, i, j) {
      if j < |segs| {
        assert Before(segs, i, j) && PairDisjoint(segs, i, j);
      }
    }
  }

  /** A block outside the heap is appended. */
  lemma {:induction false} AppendKeeps(t: Tracker, live: Live, boot: nat, p: nat, size: nat, kind: Kind)
    requires Inv(t, live, boot) && Fresh(t, live, p, size) && !HeapContains(t, p) && kind != Stack
    ensures Inv(Append(t, p, p + size - 1, kind), live[p := size], boot)
  {
    var t', live' := Append(t, p, p + size - 1, kind), live[p := size];
    var n := |t.segs|;
    AnnouncedAppend(t.segs, t'.segs[n]);
    AppendOrdered(t.segs, t'.segs[n]);
    AppendRefines(t, live, boot, p, size, kind);
  }

  lemma {:induction false} AppendRefines(t: Tracker, live: Live, boot: nat, p: nat, size: nat, kind: Kind)
    requires WellFormed(t, boot) && Refines(t, live, boot) && Fresh(t, live, p, size) && !HeapContains(t, p) && kind != Stack
    ensures HasKey(Append(t, p, p + size - 1, kind).segs, t.heap)
    ensures Refines(Append(t, p, p + size - 1, kind), live[p := size], boot)
  {
    var t', live' := Append(t, p, p + size - 1, kind), live[p := size];
    var n := |t.segs|;
    SameHeap(t, t', boot);
    forall i | 0 <= i < |t'.segs| ensures Backed(t'.segs[i], live', boot) {
      assert i < n ==> Backed(t.segs[i], live, boot);
    }
    forall q | q in live' ensures LiveBlock(t', live', boot, q) {
      if q == p {
        assert t'.segs[n].start == p && boot <= t'.segs[n].key;
      } else {
        assert LiveBlock(t, live, boot, q);
        if !HeapContains(t, q) {
          var k :| 0 <= k < n && t.segs[k].start == q && boot <= t.segs[k].key;
          assert t'.segs[k].start == q && boot <= t'.segs[k].key;
        }
      }
    }
  }

  /** Appending with a fresh key leaves the heap segment alone. */
  lemma {:induction false} SameHeap(t: Tracker, t': Tracker, boot: nat)
    requires WellFormed(t, boot) && t'.heap == t.heap
    requires t.segs <= t'.segs && forall i :: |t.segs| <= i < |t'.segs| ==> t.nextKey <= t'.segs[i].key
    ensures HasKey(t'.segs, t.heap)
    ensures forall a: int :: HeapContains(t', a) <==> HeapContains(t, a)
  {
    var h := HeapIndex(t, boot);
    assert t'.segs[h].key == t.heap;
    assert forall i :: 0 <= i < |t.segs| ==> t'.segs[i] == t.segs[i];
  }

  /** A block inside the heap needs no entry. */
  lemma {:induction false} HeapBlockKeeps(t: Tracker, live: Live, boot: nat, p: nat, size: nat)
    requires Inv(t, live, boot) && Fresh(t, live, p, size) && HeapContains(t, p)
    ensures Inv(t, live[p := size], boot)
  {
    var live' := live[p := size];
    forall i | 0 <= i < |t.segs| ensures Backed(t.segs[i], live', boot) {
      assert Backed(t.segs[i], live, boot);
    }
    forall q | q in live' ensures LiveBlock(t, live', boot, q) {
      assert q != p ==> LiveBlock(t, live, boot, q);
    }
  }

  // ----- removing a block -----

  /** Forgetting a block of the heap. */
  lemma {:induction false} ForgetHeapBlock(t: Tracker, live: Live, boot: nat, p: nat)
    requires Inv(t, live, boot) && HeapContains(t, p)
    ensures Inv(t, live - {p}, boot)
  {
    var live' := live - {p};
    var h := HeapIndex(t, boot);
    forall i | 0 <= i < |t.segs| ensures Backed(t.segs[i], live', boot) {
      assert Backed(t.segs[i], live, boot);
      if i != h { DisjointAt(t.segs, h, i); }
    }
    forall q | q in live' ensures LiveBlock(t, live', boot, q) {
      assert LiveBlock(t, live, boot, q);
    }
  }

  /** A live block outside the heap is contained in one segment, its own. */
  lemma {:induction false} OwnSegment(t: Tracker, live: Live, boot: nat, p: nat) returns (k: nat)
    requires Inv(t, live, boot) && p in live && !HeapContains(t, p)
    ensures k < |t.segs| && boot <= t.segs[k].key && t.segs[k].start == p && t.segs[k].end == p + live[p] - 1
    ensures t.segs[k].kind != Stack && t.segs[k].Contains(p)
    ensures forall j :: 0 <= j < |t.segs| && j != k ==> !t.segs[j].Contains(p)
  {
    assert LiveBlock(t, live, boot, p);
    k :| 0 <= k < |t.segs| && t.segs[k].start == p && boot <= t.segs[k].key;
    assert Backed(t.segs[k], live, boot);
    forall j | 0 <= j < |t.segs| && j != k ensures !t.segs[j].Contains(p) {
      DisjointAt(t.segs, j, k);
    }
  }

  lemma {:induction false} WithoutOrdered(segs: seq<Seg>, k: nat)
    requires k < |segs| && Rising(segs) && PairwiseDisjoint(segs)
    ensures Rising(Without(segs, k)) && PairwiseDisjoint(Without(segs, k))
  {
    var r := Without(segs, k);
    forall i, j | 0 <= i < j < |r| ensures Before(r, i, j) && PairDisjoint(r, i, j) {
      var i', j' := if i < k then i else i + 1, if j < k then j else j + 1;
      assert Before(segs, i', j') && PairDisjoint(segs, i', j');
    }
  }

  lemma {:induction false} WithoutOther(t: Tracker, t': Tracker, boot: nat, k: nat)
    requires WellFormed(t, boot) && k < |t.segs| && t.segs[k].key != t.heap
    requires t'.heap == t.heap && t'.segs == Without(t.segs, k)
    ensures HasKey(t'.segs, t.heap)
    ensures forall a: int :: HeapContains(t', a) <==> HeapContains(t, a)
  {
    var h := HeapIndex(t, boot);
    var h' := if h < k then h else h - 1;
    assert t'.segs[h'] == t.segs[h];
    forall i | 0 <= i < |t'.segs| && t'.segs[i].key == t.heap ensures i == h' {
      assert t'.segs[i] == t.segs[if i < k then i else i + 1];
    }
  }

  /** Removing by containment removes exactly the block's own segment, and the heap stays. */
  lemma {:induction false} RemoveKeeps(t: Tracker, live: Live, boot: nat, p: nat) returns (k: nat)
    requires Inv(t, live, boot) && p in live && !HeapContains(t, p)
    ensures Inv(Remove(t, p), live - {p}, boot)
    ensures k < |t.segs| && t.segs[k].start == p && Remove(t, p).segs == Without(t.segs, k)
    ensures boot <= t.segs[k].key && t.segs[k].end == p + live[p] - 1
    ensures Remove(t, p).removed == t.removed + [t.segs[k].key]
    ensures forall a: int :: HeapContains(Remove(t, p), a) <==> HeapContains(t, a)
  {
    var t', live' := Remove(t, p), live - {p};
    k := OwnSegment(t, live, boot, p);
    KeptOne(t.segs, p, k);
    WithoutOrdered(t.segs, k);
    WithoutOther(t, t', boot, k);
    AnnouncedWithout(t.segs, k);
    RemoveRefines(t, live, boot, p, k);
  }

  lemma {:induction false} RemoveRefines(t: Tracker, live: Live, boot: nat, p: nat, k: nat)
    requires WellFormed(t, boot) && Refines(t, live, boot) && p in live && !HeapContains(t, p)
    requires k < |t.segs| && boot <= t.segs[k].key && t.segs[k].start == p
    requires forall j :: 0 <= j < |t.segs| && j != k ==> !t.segs[j].Contains(p)
    requires Remove(t, p).segs == Without(t.segs, k)
    requires forall a: int :: HeapContains(Remove(t, p), a) <==> HeapContains(t, a)
    ensures Refines(Remove(t, p), live - {p}, boot)
  {
    var t', live' := Remove(t, p), live - {p};
    forall i | 0 <= i < |t'.segs| ensures Backed(t'.segs[i], live', boot) {
      var i' := if i < k then i else i + 1;
      assert Backed(t.segs[i'], live, boot) && !t.segs[i'].Contains(p);
    }
    forall q | q in live' ensures LiveBlock(t', live', boot, q) {
      assert LiveBlock(t, live, boot, q);
      if !HeapContains(t, q) { StillTracked(t.segs, boot, q, k); }
    }
  }

  lemma {:induction false} StillTracked(segs: seq<Seg>, boot: nat, q: nat, k: nat)
    requires k < |segs| && TrackedAs(segs, boot, q) && (segs[k].start != q || segs[k].key < boot)
    ensures TrackedAs(Without(segs, k), boot, q)
  {
    var j :| 0 <= j < |segs| && segs[j].start == q && boot <= segs[j].key;
    var j' := if j < k then j else j - 1;
    assert Without(segs, k)[j'] == segs[j];
  }

  /** Freeing the null pointer outside the heap removes nothing. */
  lemma {:induction false} RemoveNull(t: Tracker, boot: nat)
    requires WellFormed(t, boot)
    ensures Remove(t, 0) == t && !HeapContains(t, 0)
  {
    KeptNone(t.segs, 0);
    assert t.removed + [] == t.removed;
  }

  // ----- every step -----

  lemma {:induction false} AllocateKeeps(t: Tracker, live: Live, boot: nat, p: nat, size: nat, brk: int, kind: Kind)
    requires Inv(t, live, boot) && AllocationFits(t, live, p, size, brk) && kind != Stack
    ensures Inv(Allocate(t, p, size, brk, kind), live[p := size], boot)
  {
    var t1 := UpdateHeap(t, brk);
    UpdateHeapKeeps(t, live, boot, brk);
    if HeapContains(t1, p) {
      HeapBlockKeeps(t1, live, boot, p, size);
    } else {
      AppendKeeps(t1, live, boot, p, size, kind);
    }
  }

  /** The list after the old block has gone, and before the new one is recorded. */
  function Released(t: Tracker, ptr: nat, brk: int): Tracker {
    if HeapContains(t, ptr) then UpdateHeap(t, brk) else Remove(UpdateHeap(t, brk), ptr)
  }

  lemma {:induction false} BreakFitsLess(t: Tracker, live: Live, ptr: nat, brk: int)
    requires BreakFits(t, live - {ptr}, brk) && !HeapContains(t, ptr)
    ensures BreakFits(t, live, brk)
  {
    forall p | p in live && HeapContains(t, p) ensures p + live[p] - 1 <= brk {
      assert p in live - {ptr};
    }
  }

  lemma {:induction false} HeapReleasedKeeps(t: Tracker, live: Live, boot: nat, ptr: nat, brk: int)
    requires Inv(t, live, boot) && HeapContains(t, ptr) && BreakFits(t, live - {ptr}, brk)
    ensures Inv(UpdateHeap(t, brk), live - {ptr}, boot)
  {
    ForgetHeapBlock(t, live, boot, ptr);
    UpdateHeapKeeps(t, live - {ptr}, boot, brk);
  }

  lemma {:induction false} OutsideReleasedKeeps(t: Tracker, live: Live, boot: nat, ptr: nat)
    requires Inv(t, live, boot) && !HeapContains(t, ptr) && (ptr == 0 || ptr in live)
    ensures Inv(Remove(t, ptr), live - {ptr}, boot)
    ensures forall a: int :: HeapContains(Remove(t, ptr), a) <==> HeapContains(t, a)
  {
    if ptr in live {
      var k := RemoveKeeps(t, live, boot, ptr);
    } else {
      RemoveNull(t, boot);
      assert live - {ptr} == live;
    }
  }

  lemma {:induction false} ReleasedKeeps(t: Tracker, live: Live, boot: nat, ptr: nat, brk: int)
    requires Inv(t, live, boot) && (ptr == 0 || ptr in live) && BreakFits(t, live - {ptr}, brk)
    ensures Inv(Released(t, ptr, brk), live - {ptr}, boot)
    ensures forall a: int :: HeapContains(Released(t, ptr, brk), a) <==> HeapContains(UpdateHeap(t, brk), a)
  {
    if HeapContains(t, ptr) {
      HeapReleasedKeeps(t, live, boot, ptr, brk);
    } else {
      BreakFitsLess(t, live, ptr, brk);
      UpdateHeapKeeps(t, live, boot, brk);
      if ptr == 0 { RemoveNull(UpdateHeap(t, brk), boot); }
      OutsideReleasedKeeps(UpdateHeap(t, brk), live, boot, ptr);
    }
  }

  /** An admissible realloc never moves the heap over the old block, so removing by containment cannot
      remove the heap segment itself. */
  lemma {:induction false} ReallocSafe(t: Tracker, live: Live, boot: nat, ptr: nat, p: nat, size: nat, brk: int)
    requires Inv(t, live, boot) && Admissible(t, live, ERealloc(ptr, p, size, brk))
    ensures !HeapContains(t, ptr) ==> !HeapContains(UpdateHeap(t, brk), ptr)
  {
    if !HeapContains(t, ptr) {
      BreakFitsLess(t, live, ptr, brk);
      UpdateHeapKeeps(t, live, boot, brk);
      RemoveNull(UpdateHeap(t, brk), boot);
    }
  }

  lemma {:induction false} ReallocateKeeps(t: Tracker, live: Live, boot: nat, ptr: nat, p: nat, size: nat, brk: int)
    requires Inv(t, live, boot) && Admissible(t, live, ERealloc(ptr, p, size, brk))
    ensures Inv(Reallocate(t, ptr, p, size, brk), (live - {ptr})[p := size], boot)
  {
    var t2, live2 := Released(t, ptr, brk), live - {ptr};
    ReleasedKeeps(t, live, boot, ptr, brk);
    if HeapContains(t2, p) {
      HeapBlockKeeps(t2, live2, boot, p, size);
    } else {
      AppendKeeps(t2, live2, boot, p, size, Realloc);
    }
  }

  lemma {:induction false} FreeKeeps(t: Tracker, live: Live, boot: nat, ptr: nat, brk: int)
    requires Inv(t, live, boot) && Admissible(t, live, EFree(ptr, brk))
    ensures Inv(Free(t, ptr, brk), live - {ptr}, boot)
  {
    if HeapContains(t, ptr) {
      HeapReleasedKeeps(t, live, boot, ptr, brk);
    } else {
      OutsideReleasedKeeps(t, live, boot, ptr);
    }
  }

  lemma {:induction false} AllocationKeeps(t: Tracker, live: Live, boot: nat, e: Event)
    requires e.EMalloc? || e.ECalloc? || e.EMemalign?
    requires Inv(t, live, boot) && Admissible(t, live, e)
    ensures Inv(Step(t, e), LiveStep(live, e), boot)
  {
    match e
    case EMalloc(result, size, brk) => AllocateKeeps(t, live, boot, result, size, brk, Malloc);
    case ECalloc(result, nmemb, size, brk) => AllocateKeeps(t, live, boot, result, Alignment.Bytes(nmemb, size), brk, Calloc);
    case EMemalign(result, size, brk) => AllocateKeeps(t, live, boot, result, size, brk, Memalign);
  }

  lemma {:induction false} MmapKeeps(t: Tracker, live: Live, boot: nat, result: nat, length: nat)
    requires Inv(t, live, boot) && Admissible(t, live, EMmap(result, length))
    ensures Inv(Step(t, EMmap(result, length)), LiveStep(live, EMmap(result, length)), boot)
  {
    AppendKeeps(t, live, boot, result, length, Mmap);
  }

  lemma {:induction false} MunmapKeeps(t: Tracker, live: Live, boot: nat, addr: nat, length: nat)
    requires Inv(t, live, boot) && Admissible(t, live, EMunmap(addr, length))
    ensures Inv(Step(t, EMunmap(addr, length)), LiveStep(live, EMunmap(addr, length)), boot)
  {
    var k := RemoveKeeps(t, live, boot, addr);
  }

  /** Every handler keeps the invariant. */
  lemma {:induction false} StepKeeps(t: Tracker, live: Live, boot: nat, e: Event)
    requires Inv(t, live, boot) && Admissible(t, live, e)
    ensures Inv(Step(t, e), LiveStep(live, e), boot)
  {
    if e.ERealloc? {
      ReallocateKeeps(t, live, boot, e.ptr, e.result, e.size, e.brk);
    } else if e.EFree? {
      FreeKeeps(t, live, boot, e.ptr, e.brk);
    } else if e.EMmap? {
      MmapKeeps(t, live, boot, e.result, e.length);
    } else if e.EMunmap? {
      MunmapKeeps(t, live, boot, e.addr, e.length);
    } else {
      AllocationKeeps(t, live, boot, e);
    }
  }

  // ----- every run -----

  function Run(t: Tracker, es: seq<Event>): Tracker {
    if es == [] then t else Step(Run(t, es[..|es| - 1]), es[|es| - 1])
  }

  function LiveRun(live: Live, es: seq<Event>): Live {
    if es == [] then live else LiveStep(LiveRun(live, es[..|es| - 1]), es[|es| - 1])
  }

  ghost predicate AdmissibleRun(t: Tracker, live: Live, es: seq<Event>) {
    es == [] ||
    var init := es[..|es| - 1];
    AdmissibleRun(t, live, init) && Admissible(Run(t, init), LiveRun(live, init), es[|es| - 1])
  }

  lemma {:induction false} RunKeeps(t: Tracker, live: Live, boot: nat, es: seq<Event>)
    requires Inv(t, live, boot) && AdmissibleRun(t, live, es)
    ensures Inv(Run(t, es), LiveRun(live, es), boot)
  {
    if es != [] {
      var init := es[..|es| - 1];
      RunKeeps(t, live, boot, init);
      StepKeeps(Run(t, init), LiveRun(live, init), boot, es[|es| - 1]);
    }
  }

  // ----- what becomes of the boot segments -----

  /** The same segment, except that the end of the heap may have moved. */
  ghost predicate SameBut(s: Seg, s': Seg, heap: nat) {
    s' == if s.key == heap then s.(end := s'.end) else s
  }

  ghost predicate Has(segs: seq<Seg>, s: Seg, heap: nat) {
    exists j :: 0 <= j < |segs| && SameBut(s, segs[j], heap)
  }

  /** Every boot segment is still there. */
  ghost predicate BootStays(t: Tracker, t': Tracker, boot: nat) {
    && t'.heap == t.heap
    && forall i :: 0 <= i < |t.segs| && t.segs[i].key < boot ==> Has(t'.segs, t.segs[i], t.heap)
  }

  lemma {:induction false} BootStaysTrans(t: Tracker, t1: Tracker, t2: Tracker, boot: nat)
    requires BootStays(t, t1, boot) && BootStays(t1, t2, boot)
    ensures BootStays(t, t2, boot)
  {
    forall i | 0 <= i < |t.segs| && t.segs[i].key < boot ensures Has(t2.segs, t.segs[i], t.heap) {
      var j :| 0 <= j < |t1.segs| && SameBut(t.segs[i], t1.segs[j], t.heap);
      assert Has(t2.segs, t1.segs[j], t.heap);
      var k :| 0 <= k < |t2.segs| && SameBut(t1.segs[j], t2.segs[k], t.heap);
      assert SameBut(t.segs[i], t2.segs[k], t.heap);
    }
  }

  lemma {:induction false} BootStaysUpdate(t: Tracker, brk: int, boot: nat)
    ensures BootStays(t, UpdateHeap(t, brk), boot)
  {
    var r := UpdateHeap(t, brk).segs;
    forall i | 0 <= i < |t.segs| && t.segs[i].key < boot ensures Has(r, t.segs[i], t.heap) {
      assert SameBut(t.segs[i], r[i], t.heap);
    }
  }

  lemma {:induction false} BootStaysAppend(t: Tracker, start: nat, end: int, kind: Kind, boot: nat)
    ensures BootStays(t, Append(t, start, end, kind), boot)
  {
    var r := Append(t, start, end, kind).segs;
    forall i | 0 <= i < |t.segs| && t.segs[i].key < boot ensures Has(r, t.segs[i], t.heap) {
      assert SameBut(t.segs[i], r[i], t.heap);
    }
  }

  lemma {:induction false} BootStaysRemove(t: Tracker, live: Live, boot: nat, ptr: nat)
    requires Inv(t, live, boot) && (ptr == 0 || ptr in live) && !HeapContains(t, ptr)
    ensures BootStays(t, Remove(t, ptr), boot)
  {
    var r := Remove(t, ptr).segs;
    if ptr in live {
      var k := RemoveKeeps(t, live, boot, ptr);
      forall i | 0 <= i < |t.segs| && t.segs[i].key < boot ensures Has(r, t.segs[i], t.heap) {
        assert SameBut(t.segs[i], r[if i < k then i else i - 1], t.heap);
      }
    } else {
      RemoveNull(t, boot);
      BootStaysSame(t, boot);
    }
  }

  lemma {:induction false} BootStaysSame(t: Tracker, boot: nat)
    ensures BootStays(t, t, boot)
  {
    forall i | 0 <= i < |t.segs| && t.segs[i].key < boot ensures Has(t.segs, t.segs[i], t.heap) {
      assert SameBut(t.segs[i], t.segs[i], t.heap);
    }
  }

  lemma {:induction false} BootStaysAllocate(t: Tracker, p: nat, size: nat, brk: int, kind: Kind, boot: nat)
    ensures BootStays(t, Allocate(t, p, size, brk, kind), boot)
  {
    BootStaysUpdate(t, brk, boot);
    BootStaysAppend(UpdateHeap(t, brk), p, p + size - 1, kind, boot);
    BootStaysTrans(t, UpdateHeap(t, brk), Append(UpdateHeap(t, brk), p, p + size - 1, kind), boot);
  }

  lemma {:induction false} BootStaysReleased(t: Tracker, live: Live, boot: nat, ptr: nat, brk: int)
    requires Inv(t, live, boot) && (ptr == 0 || ptr in live) && BreakFits(t, live - {ptr}, brk)
    ensures BootStays(t, Released(t, ptr, brk), boot)
  {
    var t1 := UpdateHeap(t, brk);
    BootStaysUpdate(t, brk, boot);
    if !HeapContains(t, ptr) {
      BreakFitsLess(t, live, ptr, brk);
      UpdateHeapKeeps(t, live, boot, brk);
      if ptr == 0 { RemoveNull(t1, boot); }
      BootStaysRemove(t1, live, boot, ptr);
      BootStaysTrans(t, t1, Remove(t1, ptr), boot);
    }
  }

  lemma {:induction false} BootStaysReallocate(t: Tracker, live: Live, boot: nat, ptr: nat, p: nat, size: nat, brk: int)
    requires Inv(t, live, boot) && (ptr == 0 || ptr in live) && BreakFits(t, live - {ptr}, brk)
    ensures BootStays(t, Reallocate(t, ptr, p, size, brk), boot)
  {
    BootStaysReleased(t, live, boot, ptr, brk);
    BootStaysReplaced(t, Released(t, ptr, brk), p, size, boot);
    ReallocateIsRelease(t, ptr, p, size, brk);
  }

  lemma {:induction false} BootStaysReplaced(t: Tracker, t2: Tracker, p: nat, size: nat, boot: nat)
    requires BootStays(t, t2, boot)
    ensures BootStays(t, Append(t2, p, p + size - 1, Realloc), boot)
  {
    BootStaysAppend(t2, p, p + size - 1, Realloc, boot);
    BootStaysTrans(t, t2, Append(t2, p, p + size - 1, Realloc), boot);
  }

  lemma {:induction false} ReallocateIsRelease(t: Tracker, ptr: nat, p: nat, size: nat, brk: int)
    ensures var t2 := Released(t, ptr, brk);
            || Reallocate(t, ptr, p, size, brk) == t2
            || Reallocate(t, ptr, p, size, brk) == Append(t2, p, p + size - 1, Realloc)
  {
  }

  lemma {:induction false} BootStaysFree(t: Tracker, live: Live, boot: nat, ptr: nat, brk: int)
    requires Inv(t, live, boot) && (ptr == 0 || ptr in live)
    ensures BootStays(t, Free(t, ptr, brk), boot)
  {
    if HeapContains(t, ptr) {
      BootStaysUpdate(t, brk, boot);
    } else {
      BootStaysRemove(t, live, boot, ptr);
    }
  }

  predicate Grows(e: Event) {
    e.EMalloc? || e.ECalloc? || e.EMemalign? || e.EMmap?
  }

  lemma {:induction false} BootStaysGrowing(t: Tracker, boot: nat, e: Event)
    requires Grows(e)
    ensures BootStays(t, Step(t, e), boot)
  {
    match e
    case EMalloc(result, size, brk) => BootStaysAllocate(t, result, size, brk, Malloc, boot);
    case ECalloc(result, nmemb, size, brk) =>
      BootStaysAllocate(t, result, Alignment.Bytes(nmemb, size), brk, Calloc, boot);
    case EMemalign(result, size, brk) => BootStaysAllocate(t, result, size, brk, Memalign, boot);
    case EMmap(result, length) => BootStaysAppend(t, result, result + length - 1, Mmap, boot);
  }

  /** No admissible handler call touches a boot segment, except for the end of the heap. */
  lemma {:induction false} StepKeepsBoot(t: Tracker, live: Live, boot: nat, e: Event)
    requires Inv(t, live, boot) && Admissible(t, live, e)
    ensures BootStays(t, Step(t, e), boot)
  {
    if Grows(e) {
      BootStaysGrowing(t, boot, e);
    } else if e.ERealloc? {
      BootStaysReallocate(t, live, boot, e.ptr, e.result, e.size, e.brk);
    } else if e.EFree? {
      BootStaysFree(t, live, boot, e.ptr, e.brk);
    } else {
      BootStaysRemove(t, live, boot, e.addr);
    }
  }

  lemma {:induction false} RunKeepsBoot(t: Tracker, live: Live, boot: nat, es: seq<Event>)
    requires Inv(t, live, boot) && AdmissibleRun(t, live, es)
    ensures BootStays(t, Run(t, es), boot)
  {
    if es == [] {
      BootStaysSame(t, boot);
    } else {
      var init := es[..|es| - 1];
      RunKeeps(t, live, boot, init);
      RunKeepsBoot(t, live, boot, init);
      StepKeepsBoot(Run(t, init), LiveRun(live, init), boot, es[|es| - 1]);
      BootStaysTrans(t, Run(t, init), Run(t, es), boot);
    }
  }

  /** No boot segment is there that was not: the handlers only record segments with new keys. */
  ghost predicate NoneInvented(t: Tracker, t': Tracker, boot: nat) {
    && t'.heap == t.heap && t.nextKey <= t'.nextKey
    && forall s :: s in t'.segs && s.key < boot ==> CameFrom(t.segs, s, t.heap)
  }

  ghost predicate CameFrom(segs: seq<Seg>, s: Seg, heap: nat) {
    exists i :: 0 <= i < |segs| && SameBut(segs[i], s, heap)
  }

  lemma {:induction false} NoneInventedTrans(t: Tracker, t1: Tracker, t2: Tracker, boot: nat)
    requires NoneInvented(t, t1, boot) && NoneInvented(t1, t2, boot)
    ensures NoneInvented(t, t2, boot)
  {
    forall s | s in t2.segs && s.key < boot ensures CameFrom(t.segs, s, t.heap) {
      assert CameFrom(t1.segs, s, t1.heap);
      var j :| 0 <= j < |t1.segs| && SameBut(t1.segs[j], s, t.heap);
      assert CameFrom(t.segs, t1.segs[j], t.heap);
      var i :| 0 <= i < |t.segs| && SameBut(t.segs[i], t1.segs[j], t.heap);
      assert SameBut(t.segs[i], s, t.heap);
    }
  }

  lemma {:induction false} UpdateInventsNone(t: Tracker, brk: int, boot: nat)
    ensures NoneInvented(t, UpdateHeap(t, brk), boot)
  {
    var r := UpdateHeap(t, brk).segs;
    forall s | s in r ensures CameFrom(t.segs, s, t.heap) {
      var i :| 0 <= i < |r| && r[i] == s;
      assert SameBut(t.segs[i], s, t.heap);
    }
  }

  lemma {:induction false} SelfInventsNone(t: Tracker, boot: nat)
    ensures NoneInvented(t, t, boot)
  {
    forall s | s in t.segs ensures CameFrom(t.segs, s, t.heap) {
      var i :| 0 <= i < |t.segs| && t.segs[i] == s;
      assert SameBut(t.segs[i], s, t.heap);
    }
  }

  lemma {:induction false} AppendInventsNone(t: Tracker, start: nat, end: int, kind: Kind, boot: nat)
    requires boot <= t.nextKey
    ensures NoneInvented(t, Append(t, start, end, kind), boot)
  {
    SelfInventsNone(t, boot);
  }

  lemma {:induction false} RemoveInventsNone(t: Tracker, ptr: int, boot: nat)
    ensures NoneInvented(t, Remove(t, ptr), boot)
  {
    forall s | s in Kept(t.segs, ptr) ensures CameFrom(t.segs, s, t.heap) {
      KeptFrom(t.segs, ptr, s);
      var i :| 0 <= i < |t.segs| && t.segs[i] == s;
      assert SameBut(t.segs[i], s, t.heap);
    }
  }

  lemma {:induction false} AllocateInventsNone(t: Tracker, p: nat, size: nat, brk: int, kind: Kind, boot: nat)
    requires boot <= t.nextKey
    ensures NoneInvented(t, Allocate(t, p, size, brk, kind), boot)
  {
    var t1 := UpdateHeap(t, brk);
    UpdateInventsNone(t, brk, boot);
    AppendInventsNone(t1, p, p + size - 1, kind, boot);
    NoneInventedTrans(t, t1, Append(t1, p, p + size - 1, kind), boot);
  }

  lemma {:induction false} ReallocateInventsNone(t: Tracker, ptr: nat, p: nat, size: nat, brk: int, boot: nat)
    requires boot <= t.nextKey
    ensures NoneInvented(t, Reallocate(t, ptr, p, size, brk), boot)
  {
    var t1, t2 := UpdateHeap(t, brk), Released(t, ptr, brk);
    UpdateInventsNone(t, brk, boot);
    RemoveInventsNone(t1, ptr, boot);
    NoneInventedTrans(t, t1, Remove(t1, ptr), boot);
    AppendInventsNone(t2, p, p + size - 1, Realloc, boot);
    NoneInventedTrans(t, t2, Append(t2, p, p + size - 1, Realloc), boot);
    ReallocateIsRelease(t, ptr, p, size, brk);
  }

  lemma {:induction false} StepInventsNone(t: Tracker, boot: nat, e: Event)
    requires boot <= t.nextKey
    ensures NoneInvented(t, Step(t, e), boot)
  {
    match e
    case EMalloc(result, size, brk) => AllocateInventsNone(t, result, size, brk, Malloc, boot);
    case ECalloc(result, nmemb, size, brk) =>
      AllocateInventsNone(t, result, Alignment.Bytes(nmemb, size), brk, Calloc, boot);
    case ERealloc(ptr, result, size, brk) => ReallocateInventsNone(t, ptr, result, size, brk, boot);
    case EFree(ptr, brk) =>
      UpdateInventsNone(t, brk, boot);
      RemoveInventsNone(t, ptr, boot);
    case EMemalign(result, size, brk) => AllocateInventsNone(t, result, size, brk, Memalign, boot);
    case EMmap(result, length) => AppendInventsNone(t, result, result + length - 1, Mmap, boot);
    case EMunmap(addr, length) => RemoveInventsNone(t, addr, boot);
  }

  /** No sequence of handler calls, admissible or not, invents a boot segment. */
  lemma {:induction false} RunInventsNone(t: Tracker, boot: nat, es: seq<Event>)
    requires boot <= t.nextKey
    ensures NoneInvented(t, Run(t, es), boot)
  {
    if es == [] {
      SelfInventsNone(t, boot);
    } else {
      var init := es[..|es| - 1];
      RunInventsNone(t, boot, init);
      StepInventsNone(Run(t, init), boot, es[|es| - 1]);
      NoneInventedTrans(t, Run(t, init), Run(t, es), boot);
    }
  }

  /** A release of an address inside another boot segment, of a block older than the library, removes that
      whole segment from the list and announces it; the invariant holds on. */
  lemma {:induction false} ReleaseInsideBoot(t: Tracker, live: Live, boot: nat, ptr: nat, k: nat)
    requires Inv(t, live, boot) && k < |t.segs| && t.segs[k].Contains(ptr)
    requires t.segs[k].key < boot && t.segs[k].key != t.heap && t.segs[k].kind != Stack
    ensures Remove(t, ptr).segs == Without(t.segs, k)
    ensures Remove(t, ptr).removed == t.removed + [t.segs[k].key]
    ensures Inv(Remove(t, ptr), live, boot)
  {
    InsideBootGone(t, live, boot, ptr, k);
    WithoutOrdered(t.segs, k);
    WithoutOther(t, Remove(t, ptr), boot, k);
    AnnouncedWithout(t.segs, k);
    InsideBootRefines(t, live, boot, ptr, k);
  }

  lemma {:induction false} InsideBootGone(t: Tracker, live: Live, boot: nat, ptr: nat, k: nat)
    requires Inv(t, live, boot) && k < |t.segs| && t.segs[k].Contains(ptr)
    ensures Remove(t, ptr).segs == Without(t.segs, k)
    ensures Remove(t, ptr).removed == t.removed + [t.segs[k].key]
  {
    forall j | 0 <= j < |t.segs| && j != k ensures !t.segs[j].Contains(ptr) {
      DisjointAt(t.segs, j, k);
    }
    KeptOne(t.segs, ptr, k);
  }

  lemma {:induction false} InsideBootRefines(t: Tracker, live: Live, boot: nat, ptr: nat, k: nat)
    requires WellFormed(t, boot) && Refines(t, live, boot) && k < |t.segs| && t.segs[k].key < boot
    requires Remove(t, ptr).segs == Without(t.segs, k)
    requires forall a: int :: HeapContains(Remove(t, ptr), a) <==> HeapContains(t, a)
    ensures Refines(Remove(t, ptr), live, boot)
  {
    var t' := Remove(t, ptr);
    forall i | 0 <= i < |t'.segs| ensures Backed(t'.segs[i], live, boot) {
      assert Backed(t.segs[if i < k then i else i + 1], live, boot);
    }
    forall q | q in live ensures LiveBlock(t', live, boot, q) {
      assert LiveBlock(t, live, boot, q);
      if !HeapContains(t, q) { StillTracked(t.segs, boot, q, k); }
    }
  }

  // ----- where the heap ends -----

  /** The break that the library has last been told of: the malloc family reports it after every call, free
      only when the block was in the heap, the mapping calls never. */
  ghost function LastBreak(t: Tracker, es: seq<Event>, atStart: int): int {
    if es == [] then atStart
    else
      var init := es[..|es| - 1];
      match es[|es| - 1]
      case EMalloc(_, _, brk) => brk
      case ECalloc(_, _, _, brk) => brk
      case ERealloc(_, _, _, brk) => brk
      case EMemalign(_, _, brk) => brk
      case EFree(ptr, brk) => if HeapContains(Run(t, init), ptr) then brk else LastBreak(t, init, atStart)
      case EMmap(_, _) => LastBreak(t, init, atStart)
      case EMunmap(_, _) => LastBreak(t, init, atStart)
  }

  /** Every segment with the key of the heap ends there. */
  ghost predicate HeapEndsAt(t: Tracker, end: int) {
    forall s :: s in t.segs && s.key == t.heap ==> s.end == end
  }

  lemma {:induction false} UpdateEnds(t: Tracker, brk: int)
    ensures HeapEndsAt(UpdateHeap(t, brk), brk)
  {
    var r := UpdateHeap(t, brk).segs;
    forall s | s in r && s.key == t.heap ensures s.end == brk {
      var i :| 0 <= i < |r| && r[i] == s;
    }
  }

  lemma {:induction false} AppendEnds(t: Tracker, start: nat, end: int, kind: Kind, at: int)
    requires HeapEndsAt(t, at) && t.heap < t.nextKey
    ensures HeapEndsAt(Append(t, start, end, kind), at)
  {
  }

  lemma {:induction false} RemoveEnds(t: Tracker, ptr: int, at: int)
    requires HeapEndsAt(t, at)
    ensures HeapEndsAt(Remove(t, ptr), at)
  {
    forall s | s in Kept(t.segs, ptr) && s.key == t.heap ensures s.end == at {
      KeptFrom(t.segs, ptr, s);
    }
  }

  lemma {:induction false} AllocateEnds(t: Tracker, p: nat, size: nat, brk: int, kind: Kind)
    requires t.heap < t.nextKey
    ensures HeapEndsAt(Allocate(t, p, size, brk, kind), brk)
  {
    UpdateEnds(t, brk);
    AppendEnds(UpdateHeap(t, brk), p, p + size - 1, kind, brk);
  }

  lemma {:induction false} ReallocateEnds(t: Tracker, ptr: nat, p: nat, size: nat, brk: int)
    requires t.heap < t.nextKey
    ensures HeapEndsAt(Reallocate(t, ptr, p, size, brk), brk)
  {
    UpdateEnds(t, brk);
    RemoveEnds(UpdateHeap(t, brk), ptr, brk);
    AppendEnds(Released(t, ptr, brk), p, p + size - 1, Realloc, brk);
    ReallocateIsRelease(t, ptr, p, size, brk);
  }

  lemma {:induction false} StepEnds(t: Tracker, e: Event, at: int)
    requires HeapEndsAt(t, at) && t.heap < t.nextKey
    ensures HeapEndsAt(Step(t, e), match e
                                   case EMalloc(_, _, brk) => brk
                                   case ECalloc(_, _, _, brk) => brk
                                   case ERealloc(_, _, _, brk) => brk
                                   case EMemalign(_, _, brk) => brk
                                   case EFree(ptr, brk) => if HeapContains(t, ptr) then brk else at
                                   case EMmap(_, _) => at
                                   case EMunmap(_, _) => at)
  {
    match e
    case EMalloc(result, size, brk) => AllocateEnds(t, result, size, brk, Malloc);
    case ECalloc(result, nmemb, size, brk) => AllocateEnds(t, result, Alignment.Bytes(nmemb, size), brk, Calloc);
    case ERealloc(ptr, result, size, brk) => ReallocateEnds(t, ptr, result, size, brk);
    case EMemalign(result, size, brk) => AllocateEnds(t, result, size, brk, Memalign);
    case EFree(ptr, brk) =>
      UpdateEnds(t, brk);
      RemoveEnds(t, ptr, at);
    case EMmap(result, length) => AppendEnds(t, result, result + length - 1, Mmap, at);
    case EMunmap(addr, _) => RemoveEnds(t, addr, at);
  }

  /** After every run the heap ends at the last break that was reported, or where it did at the start. */
  lemma {:induction false} RunEnds(t: Tracker, boot: nat, es: seq<Event>, atStart: int)
    requires HeapEndsAt(t, atStart) && t.heap < boot <= t.nextKey
    ensures HeapEndsAt(Run(t, es), LastBreak(t, es, atStart))
  {
    if es != [] {
      var init := es[..|es| - 1];
      RunEnds(t, boot, init, atStart);
      RunInventsNone(t, boot, init);
      StepEnds(Run(t, init), es[|es| - 1], LastBreak(t, init, atStart));
    }
  }

  // ----- what recorded a segment -----

  /** The handler that recorded the block at an address: the last one that returned it. */
  function RecordedBy(es: seq<Event>, start: nat): Kind {
    if es == [] then Anonymous
    else RecordedAfter(RecordedBy(es[..|es| - 1], start), es[|es| - 1], start)
  }

  function RecordedAfter(earlier: Kind, e: Event, start: nat): Kind {
    match e
    case EMalloc(result, _, _) => if result == start then Malloc else earlier
    case ECalloc(result, _, _, _) => if result == start then Calloc else earlier
    case ERealloc(_, result, _, _) => if result == start then Realloc else earlier
    case EMemalign(result, _, _) => if result == start then Memalign else earlier
    case EMmap(result, _) => if result == start then Mmap else earlier
    case EFree(_, _) => earlier
    case EMunmap(_, _) => earlier
  }

  lemma {:induction false} RecordedNext(es: seq<Event>, e: Event)
    ensures forall q :: RecordedBy(es + [e], q) == RecordedAfter(RecordedBy(es, q), e, q)
  {
    assert (es + [e])[..|es|] == es;
  }

  /** Every segment with a key from `first` on has the kind of the handler that recorded it. */
  ghost predicate KindsMatch(t: Tracker, first: nat, es: seq<Event>) {
    forall s :: s in t.segs && first <= s.key ==> s.kind == RecordedBy(es, s.start)
  }

  /** Apart from the heap, every segment was there before. */
  ghost predicate NoneAdded(t: Tracker, t': Tracker) {
    t'.heap == t.heap && forall s :: s in t'.segs && s.key != t.heap ==> s in t.segs
  }

  /** Or it starts at p and has the kind. */
  ghost predicate OnlyAdds(t: Tracker, t': Tracker, p: nat, kind: Kind) {
    t'.heap == t.heap
    && forall s :: s in t'.segs && s.key != t.heap ==> s in t.segs || (s.start == p && s.kind == kind)
  }

  lemma {:induction false} UpdateAddsNone(t: Tracker, brk: int)
    ensures NoneAdded(t, UpdateHeap(t, brk))
  {
    var r := UpdateHeap(t, brk).segs;
    forall s | s in r && s.key != t.heap ensures s in t.segs {
      var i :| 0 <= i < |r| && r[i] == s;
      assert s == t.segs[i];
    }
  }

  lemma {:induction false} RemoveAddsNone(t: Tracker, ptr: int)
    ensures NoneAdded(t, Remove(t, ptr))
  {
    forall s | s in Kept(t.segs, ptr) ensures s in t.segs {
      KeptFrom(t.segs, ptr, s);
    }
  }

  /** Something that holds p: the heap, or a segment that was recorded just now. */
  ghost predicate Holder(t: Tracker, p: nat, key: nat) {
    HeapContains(t, p) || exists i :: 0 <= i < |t.segs| && t.segs[i].start == p && t.segs[i].key == key
  }

  lemma {:induction false} AppendHolds(t: Tracker, p: nat, size: nat, kind: Kind)
    ensures Holder(Append(t, p, p + size - 1, kind), p, t.nextKey)
  {
    var r := Append(t, p, p + size - 1, kind).segs;
    assert r[|t.segs|].start == p;
  }

  /** A segment that was in the list before does not start at a block that has just been returned. */
  lemma {:induction false} StartsElsewhere(t: Tracker, live: Live, boot: nat, p: nat, key: nat, s: Seg)
    requires Inv(t, live, boot) && Holder(t, p, key) && s in t.segs && boot <= s.key && s.key != key
    ensures s.start != p
  {
    var j :| 0 <= j < |t.segs| && t.segs[j] == s;
    if HeapContains(t, p) {
      var h := HeapIndex(t, boot);
      DisjointAt(t.segs, h, j);
    } else {
      var i :| 0 <= i < |t.segs| && t.segs[i].start == p && t.segs[i].key == key;
      DisjointAt(t.segs, i, j);
    }
  }

  lemma {:induction false} AddedKinds(t: Tracker, t': Tracker, live: Live, boot: nat, first: nat, es: seq<Event>,
                                      e: Event, p: nat, kind: Kind)
    requires Inv(t', live, boot) && boot <= first && KindsMatch(t, first, es)
    requires (forall s :: s in t.segs ==> s.key < t.nextKey) && t.heap < boot
    requires OnlyAdds(t, t', p, kind) && Holder(t', p, t.nextKey)
    requires forall q :: RecordedBy(es + [e], q) == if q == p then kind else RecordedBy(es, q)
    ensures KindsMatch(t', first, es + [e])
  {
    forall s | s in t'.segs && first <= s.key ensures s.kind == RecordedBy(es + [e], s.start) {
      if s in t.segs { StartsElsewhere(t', live, boot, p, t.nextKey, s); }
    }
  }

  lemma {:induction false} SameKinds(t: Tracker, t': Tracker, first: nat, es: seq<Event>, e: Event)
    requires t.heap < first && KindsMatch(t, first, es) && NoneAdded(t, t')
    requires forall q :: RecordedBy(es + [e], q) == RecordedBy(es, q)
    ensures KindsMatch(t', first, es + [e])
  {
  }

  lemma {:induction false} AllocateAdds(t: Tracker, p: nat, size: nat, brk: int, kind: Kind)
    ensures OnlyAdds(t, Allocate(t, p, size, brk, kind), p, kind)
    ensures Holder(Allocate(t, p, size, brk, kind), p, t.nextKey)
  {
    UpdateAddsNone(t, brk);
    AppendHolds(UpdateHeap(t, brk), p, size, kind);
  }

  lemma {:induction false} ReleasedAddsNone(t: Tracker, ptr: nat, brk: int)
    ensures NoneAdded(t, Released(t, ptr, brk)) && Released(t, ptr, brk).nextKey == t.nextKey
  {
    UpdateAddsNone(t, brk);
    RemoveAddsNone(UpdateHeap(t, brk), ptr);
  }

  lemma {:induction false} ReallocateAdds(t: Tracker, live: Live, boot: nat, ptr: nat, p: nat, size: nat, brk: int)
    requires Inv(t, live, boot) && Admissible(t, live, ERealloc(ptr, p, size, brk))
    ensures OnlyAdds(t, Reallocate(t, ptr, p, size, brk), p, Realloc)
    ensures Holder(Reallocate(t, ptr, p, size, brk), p, t.nextKey)
  {
    ReleasedAddsNone(t, ptr, brk);
    ReleasedKeeps(t, live, boot, ptr, brk);
    AppendHolds(Released(t, ptr, brk), p, size, Realloc);
  }

  lemma {:induction false} StepAdds(t: Tracker, live: Live, boot: nat, e: Event) returns (p: nat, kind: Kind)
    requires Inv(t, live, boot) && Admissible(t, live, e) && !e.EFree? && !e.EMunmap?
    ensures OnlyAdds(t, Step(t, e), p, kind) && Holder(Step(t, e), p, t.nextKey)
    ensures forall earlier, q :: RecordedAfter(earlier, e, q) == if q == p then kind else earlier
  {
    match e
    case EMalloc(result, size, brk) =>
      p, kind := result, Malloc;
      AllocateAdds(t, p, size, brk, Malloc);
    case ECalloc(result, nmemb, size, brk) =>
      p, kind := result, Calloc;
      AllocateAdds(t, p, Alignment.Bytes(nmemb, size), brk, Calloc);
    case ERealloc(ptr, result, size, brk) =>
      p, kind := result, Realloc;
      ReallocateAdds(t, live, boot, ptr, p, size, brk);
    case EMemalign(result, size, brk) =>
      p, kind := result, Memalign;
      AllocateAdds(t, p, size, brk, Memalign);
    case EMmap(result, length) =>
      p, kind := result, Mmap;
      AppendHolds(t, p, length, Mmap);
  }

  lemma {:induction false} StepDrops(t: Tracker, e: Event)
    requires e.EFree? || e.EMunmap?
    ensures NoneAdded(t, Step(t, e))
  {
    if e.EFree? {
      UpdateAddsNone(t, e.brk);
      RemoveAddsNone(t, e.ptr);
    } else {
      RemoveAddsNone(t, e.addr);
    }
  }

  lemma {:induction false} StepKinds(t: Tracker, live: Live, boot: nat, first: nat, es: seq<Event>, e: Event)
    requires Inv(t, live, boot) && Admissible(t, live, e) && boot <= first && KindsMatch(t, first, es)
    ensures KindsMatch(Step(t, e), first, es + [e])
  {
    RecordedNext(es, e);
    if e.EFree? || e.EMunmap? {
      StepDrops(t, e);
      SameKinds(t, Step(t, e), first, es, e);
    } else {
      var p, kind := StepAdds(t, live, boot, e);
      StepKeeps(t, live, boot, e);
      AddedKinds(t, Step(t, e), LiveStep(live, e), boot, first, es, e, p, kind);
    }
  }

  /** A state that satisfies the invariant, and a call that may follow. */
  ghost predicate Ready(t: Tracker, live: Live, boot: nat, e: Event) {
    Inv(t, live, boot) && Admissible(t, live, e)
  }

  /** The last call of a run, and the state that it finds. */
  lemma {:induction false} LastCall(t: Tracker, live: Live, boot: nat, es: seq<Event>)
      returns (init: seq<Event>, e: Event, now: Tracker, blocks: Live)
    requires Inv(t, live, boot) && AdmissibleRun(t, live, es) && es != []
    ensures es == init + [e] && AdmissibleRun(t, live, init)
    ensures now == Run(t, init) && Run(t, es) == Step(now, e) && Ready(now, blocks, boot, e)
    ensures boot <= t.nextKey
  {
    init, e := es[..|es| - 1], es[|es| - 1];
    now, blocks := Run(t, init), LiveRun(live, init);
    RunKeeps(t, live, boot, init);
  }

  lemma {:induction false} ReadyKinds(t: Tracker, live: Live, boot: nat, first: nat, es: seq<Event>, e: Event)
    requires Ready(t, live, boot, e) && boot <= first && KindsMatch(t, first, es)
    ensures KindsMatch(Step(t, e), first, es + [e])
  {
    StepKinds(t, live, boot, first, es, e);
  }

  /** What a run has recorded is recorded under the name of the handler that returned the block. */
  lemma {:induction false} RunKinds(t: Tracker, live: Live, boot: nat, es: seq<Event>)
    requires Inv(t, live, boot) && AdmissibleRun(t, live, es)
    ensures KindsMatch(Run(t, es), t.nextKey, es)
    decreases |es|
  {
    if es != [] {
      var init, e, now, blocks := LastCall(t, live, boot, es);
      RunKinds(t, live, boot, init);
      ReadyKinds(now, blocks, boot, t.nextKey, init, e);
    }
  }

  // ----- every reachable state -----

  /** What the invariant means for a reader of the list, in any reachable state: a segment that is not
      from boot is a live block outside the heap with its exact range, every such block has a segment,
      no two segments share a byte, and the boot segments are exactly those of the start, up to the heap's
      end. */
  lemma {:induction false} ReachableList(t: Tracker, live: Live, boot: nat, es: seq<Event>)
    requires Inv(t, live, boot) && AdmissibleRun(t, live, es)
    ensures var now, blocks := Run(t, es), LiveRun(live, es);
            && (forall s :: s in now.segs && boot <= s.key ==>
                  s.start in blocks && s.Length() == blocks[s.start] && !HeapContains(now, s.start))
            && (forall p :: p in blocks && !HeapContains(now, p) ==>
                  exists s :: s in now.segs && boot <= s.key && s.start == p && s.Length() == blocks[p])
            && (forall i, j :: 0 <= i < j < |now.segs| ==> now.segs[i].IsDisjointWith(now.segs[j]))
            && HasKey(now.segs, now.heap) && BootStays(t, now, boot) && NoneInvented(t, now, boot)
            && (forall atStart :: HeapEndsAt(t, atStart) ==> HeapEndsAt(now, LastBreak(t, es, atStart)))
            && KindsMatch(now, t.nextKey, es)
  {
    var now, blocks := Run(t, es), LiveRun(live, es);
    RunKeeps(t, live, boot, es);
    RunKeepsBoot(t, live, boot, es);
    RunInventsNone(t, boot, es);
    RunKinds(t, live, boot, es);
    forall atStart | HeapEndsAt(t, atStart) ensures HeapEndsAt(now, LastBreak(t, es, atStart)) {
      RunEnds(t, boot, es, atStart);
    }
    var h := HeapIndex(now, boot);
    forall s | s in now.segs && boot <= s.key
      ensures s.start in blocks && s.Length() == blocks[s.start] && !HeapContains(now, s.start)
    {
      var i :| 0 <= i < |now.segs| && now.segs[i] == s;
      assert Backed(now.segs[i], blocks, boot);
      DisjointAt(now.segs, h, i);
    }
    forall p | p in blocks && !HeapContains(now, p)
      ensures exists s :: s in now.segs && boot <= s.key && s.start == p && s.Length() == blocks[p]
    {
      var k := OwnSegment(now, blocks, boot, p);
      assert now.segs[k] in now.segs;
    }
    forall i, j | 0 <= i < j < |now.segs| ensures now.segs[i].IsDisjointWith(now.segs[j]) {
      assert PairDisjoint(now.segs, i, j);
    }
  }

  /** Additions announced to the mode, less removals announced, are the list without the stack. */
  lemma {:induction false} LedgerBalances(t: Tracker, live: Live, boot: nat, es: seq<Event>)
    requires Inv(t, live, boot) && AdmissibleRun(t, live, es)
    ensures multiset(Run(t, es).added) - multiset(Run(t, es).removed) == AnnouncedKeys(Run(t, es).segs)
    ensures multiset(Run(t, es).removed) <= multiset(Run(t, es).added)
  {
    RunKeeps(t, live, boot, es);
  }

  /** Every free, realloc or munmap of a block outside the heap takes one segment from the list, the
      block's own, and tells the mode about that one; until a new block is recorded nothing in the list
      contains the old address. */
  lemma {:induction false} ReleaseIsExact(t: Tracker, live: Live, boot: nat, es: seq<Event>, ptr: nat,
                                          brk: int) returns (k: nat)
    requires Inv(t, live, boot) && AdmissibleRun(t, live, es)
    requires ptr in LiveRun(live, es) && !HeapContains(Run(t, es), ptr)
    requires BreakFits(Run(t, es), LiveRun(live, es) - {ptr}, brk)
    ensures var now := Run(t, es);
            && OwnSegmentAt(now, LiveRun(live, es), boot, ptr, k)
            && OnlyGone(now, Remove(now, ptr), ptr, k)
            && OnlyGone(UpdateHeap(now, brk), Released(now, ptr, brk), ptr, k)
            && UpdateHeap(now, brk).segs[k] == now.segs[k]
  {
    var now, blocks := Run(t, es), LiveRun(live, es);
    RunKeeps(t, live, boot, es);
    k := RemoveKeeps(now, blocks, boot, ptr);
    NothingLeft(now.segs, ptr);
    BreakFitsLess(now, blocks, ptr, brk);
    UpdateHeapKeeps(now, blocks, boot, brk);
    var k' := RemoveKeeps(UpdateHeap(now, brk), blocks, boot, ptr);
    NothingLeft(UpdateHeap(now, brk).segs, ptr);
    SameStart(now, blocks, boot, brk, ptr, k, k');
  }

  /** The segment at k is the block's own. */
  ghost predicate OwnSegmentAt(t: Tracker, live: Live, boot: nat, ptr: nat, k: nat) {
    && ptr in live && k < |t.segs|
    && boot <= t.segs[k].key && t.segs[k].start == ptr && t.segs[k].Length() == live[ptr]
  }

  /** The list lost the segment at k, the mode was told about it, and nothing left contains the address. */
  ghost predicate OnlyGone(t: Tracker, t': Tracker, ptr: nat, k: nat) {
    && k < |t.segs| && t'.segs == Without(t.segs, k)
    && t'.removed == t.removed + [t.segs[k].key]
    && forall s :: s in t'.segs ==> !s.Contains(ptr)
  }

  lemma {:induction false} SameStart(t: Tracker, live: Live, boot: nat, brk: int, ptr: nat, k: nat, k': nat)
    requires Inv(t, live, boot) && BreakFits(t, live, brk)
    requires k < |t.segs| && k' < |t.segs| && t.segs[k].start == ptr && boot <= t.segs[k].key
    requires UpdateHeap(t, brk).segs[k'].start == ptr
    ensures k == k' && UpdateHeap(t, brk).segs[k] == t.segs[k]
  {
    if k != k' { DisjointAt(t.segs, k, k'); }
  }

  lemma {:induction false} KeptHas(segs: seq<Seg>, ptr: int, i: nat)
    requires i < |segs| && !segs[i].Contains(ptr)
    ensures segs[i] in Kept(segs, ptr)
  {
    var n := |segs| - 1;
    if i < n { KeptHas(segs[..n], ptr, i); }
  }

  lemma {:induction false} KeptFrom(segs: seq<Seg>, ptr: int, s: Seg)
    requires s in Kept(segs, ptr)
    ensures s in segs && !s.Contains(ptr)
  {
    var n := |segs| - 1;
    if s in Kept(segs[..n], ptr) { KeptFrom(segs[..n], ptr, s); }
  }

  /** Removing by containment drops the heap segment exactly when the heap contains the address: this is
      what the heap test before every removal is for. */
  lemma {:induction false} HeapLostIff(t: Tracker, boot: nat, ptr: int)
    requires WellFormed(t, boot)
    ensures HasKey(Remove(t, ptr).segs, t.heap) <==> !HeapContains(t, ptr)
  {
    var h := HeapIndex(t, boot);
    var left := Kept(t.segs, ptr);
    if HasKey(left, t.heap) {
      var i :| 0 <= i < |left| && left[i].key == t.heap;
      KeptFrom(t.segs, ptr, left[i]);
    } else if !t.segs[h].Contains(ptr) {
      KeptHas(t.segs, ptr, h);
    }
  }

  lemma {:induction false} NothingLeft(segs: seq<Seg>, ptr: int)
    ensures forall s :: s in Kept(segs, ptr) ==> !s.Contains(ptr)
  {
    forall s | s in Kept(segs, ptr) ensures !s.Contains(ptr) {
      var i :| 0 <= i < |Kept(segs, ptr)| && Kept(segs, ptr)[i] == s;
      KeptAvoids(segs, ptr, i);
    }
  }
}
