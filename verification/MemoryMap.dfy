/** The tracker as the library has it: a list of segment objects, one of them also reached through the
    heap pointer, updated in place by the handlers.  Each handler is proved to do exactly what the
    state machine of RegionTracker says; the answers of the real allocator are parameters. */
module MemoryMap {
  import opened Outcomes
  import opened Segments
  import opened RegionTracker
  import opened BootScan
  import Alignment

  class MemorySegment {
    /** Stands for the address of the list node: no two segments ever have the same one. */
    const key: nat
    var startAddress: nat
    var endAddress: int
    var kind: Kind

    constructor (key: nat, start: nat, end: int, kind: Kind)
      ensures this.key == key && View() == Seg(key, start, end, kind)
    {
      this.key := key;
      startAddress, endAddress, this.kind := start, end, kind;
    }

    function View(): Seg
      reads this
    {
      Seg(key, startAddress, endAddress, kind)
    }

    method Contains(addr: int) returns (r: bool)
      ensures r == View().Contains(addr)
    {
      r := addr >= startAddress && addr <= endAddress;
    }
  }

  /** The list of objects represents a list of values. */
  ghost predicate Represents(segments: seq<MemorySegment>, segs: seq<Seg>)
    reads segments
  {
    && |segments| == |segs|
    && forall i :: 0 <= i < |segments| ==> segments[i].View() == segs[i]
  }

  /** No segment object is in the list twice, and no two share a key. */
  ghost predicate AllDistinct(segments: seq<MemorySegment>) {
    forall i, j :: 0 <= i < j < |segments| ==> Different(segments, i, j)
  }

  ghost predicate Different(segments: seq<MemorySegment>, i: nat, j: nat)
    requires i < |segments| && j < |segments|
  {
    segments[i].key != segments[j].key
  }

  lemma {:induction false} DistinctAppend(segments: seq<MemorySegment>, s: MemorySegment)
    requires AllDistinct(segments) && forall r :: r in segments ==> r.key != s.key
    ensures AllDistinct(segments + [s])
  {
    var list := segments + [s];
    forall i, j | 0 <= i < j < |list| ensures Different(list, i, j) {
      if j < |segments| {
        assert Different(segments, i, j);
      } else {
        assert segments[i] in segments;
      }
    }
  }

  lemma {:induction false} SameKeySame(segments: seq<MemorySegment>, i: nat, j: nat)
    requires AllDistinct(segments) && i < |segments| && j < |segments| && segments[i].key == segments[j].key
    ensures i == j
  {
    assert i < j ==> Different(segments, i, j);
    assert j < i ==> Different(segments, j, i);
  }

  lemma {:induction false} KeptStep(views: seq<Seg>, i: nat, ptr: int)
    requires i < |views|
    ensures Kept(views[..i + 1], ptr) == Kept(views[..i], ptr) + (if views[i].Contains(ptr) then [] else [views[i]])
    ensures Dropped(views[..i + 1], ptr) == Dropped(views[..i], ptr) + (if views[i].Contains(ptr) then [views[i].key] else [])
  {
    assert views[..i + 1][..i] == views[..i];
  }

  /** The list without the segments that contain an address, and the keys of those. */
  method RemoveIf(segments: seq<MemorySegment>, ptr: int, ghost views: seq<Seg>)
      returns (kept: seq<MemorySegment>, gone: seq<nat>)
    requires Represents(segments, views) && AllDistinct(segments)
    ensures Represents(kept, Kept(views, ptr)) && gone == Dropped(views, ptr)
    ensures AllDistinct(kept) && forall s :: s in kept ==> s in segments
    ensures forall s :: s in segments ==> (s in kept <==> !s.View().Contains(ptr))
  {
    kept, gone := [], [];
    for i := 0 to |segments|
      invariant Represents(kept, Kept(views[..i], ptr))
      invariant gone == Dropped(views[..i], ptr)
      invariant (forall s :: s in kept ==> s in segments[..i] && !s.View().Contains(ptr)) && AllDistinct(kept)
      invariant forall s :: s in segments[..i] && !s.View().Contains(ptr) ==> s in kept
    {
      var s := segments[i];
      KeptStep(views, i, ptr);
      assert segments[..i + 1] == segments[..i] + [s];
      var contained := s.Contains(ptr);
      if contained {
        gone := gone + [s.key];
      } else {
        NotBefore(segments, i);
        DistinctAppend(kept, s);
        kept := kept + [s];
      }
    }
    assert views[..|segments|] == views && segments[..|segments|] == segments;
  }

  /** The tracker is in step with some live blocks, and the call is one that the allocator and the kernel
      can answer so. */
  ghost predicate Expected(t: Tracker, e: Event) {
    exists live: Live, boot: nat :: Inv(t, live, boot) && Admissible(t, live, e)
  }

  lemma {:induction false} ExpectedRealloc(t: Tracker, ptr: nat, p: nat, size: nat, brk: int)
    ensures Expected(t, ERealloc(ptr, p, size, brk)) && !HeapContains(t, ptr) ==> !HeapContains(UpdateHeap(t, brk), ptr)
  {
    if Expected(t, ERealloc(ptr, p, size, brk)) {
      var live: Live, boot: nat :| Inv(t, live, boot) && Admissible(t, live, ERealloc(ptr, p, size, brk));
      ReallocSafe(t, live, boot, ptr, p, size, brk);
    }
  }

  class MemoryMap {
    var segments: seq<MemorySegment>
    var heap: MemorySegment
    var nextKey: nat
    /** The calls to the mode: the keys of the segments announced, and of those withdrawn. */
    var added: seq<nat>
    var removed: seq<nat>
    /** The state of the machine in RegionTracker that these fields represent. */
    ghost var model: Tracker

    constructor (list: seq<MemorySegment>, heap: MemorySegment, key: nat, announced: seq<nat>, ghost model: Tracker)
      requires heap in list && (forall s :: s in list ==> s.key < key) && AllDistinct(list)
      requires model == Tracker(model.segs, heap.key, key, announced, []) && Represents(list, model.segs)
      ensures Valid() && this.model == model
    {
      segments, this.heap, nextKey := list, heap, key;
      added, removed := announced, [];
      this.model := model;
    }

    /** The constructor of the source on the parsed lines of the maps file: the list built line by line,
        and the checks that end the process when a segment was not found. */
    static method Create(lines: seq<Line>, textAddr: int, dataAddr: int) returns (r: Outcome<MemoryMap>)
      ensures r.Ok? <==> Boot(lines, textAddr, dataAddr).Ok?
      ensures r.Ok? ==> fresh(r.value) && r.value.Valid() && r.value.model == Boot(lines, textAddr, dataAddr).value
      ensures r.Die? ==> Boot(lines, textAddr, dataAddr) == Die(r.message)
    {
      var list: seq<MemorySegment> := [];
      var found: MemorySegment? := null;
      var stack, text, data := false, false, false;
      var key := 0;
      var announced: seq<nat> := [];
      for i := 0 to |lines|
        invariant var scan := ScanLines(lines[..i], textAddr, dataAddr);
                  && Represents(list, scan.t.segs) && key == scan.t.nextKey
                  && announced == scan.t.added && scan.t.removed == []
                  && (found == null <==> scan.heap == [])
                  && (found != null ==> found in list && found.key == scan.t.heap)
                  && stack == scan.stack && text == scan.text && data == scan.data
        invariant forall s :: s in list ==> s.key < key
        invariant AllDistinct(list)
      {
        var l := lines[i];
        assert lines[..i + 1][..i] == lines[..i];
        match Classify(l, textAddr, dataAddr)
        case Skip =>
        case As(kind) =>
          var s := new MemorySegment(key, l.start, l.endExclusive - 1, kind);
          DistinctAppend(list, s);
          list := list + [s];
          if kind == Heap {
            found := s;
          }
          stack, text, data := stack || kind == Stack, text || kind == Text, data || kind == Data;
          if kind != Stack {
            announced := announced + [key];
          }
          key := key + 1;
      }
      assert lines[..|lines|] == lines;
      if found == null {
        return Die("didnt find the heap!");
      }
      if !stack {
        return Die("didnt find the stack!");
      }
      if !text {
        return Die("didnt find the text segment!");
      }
      if !data {
        return Die("didnt find the data segment!");
      }
      var created := new MemoryMap(list, found, key, announced, Boot(lines, textAddr, dataAddr).value);
      r := Ok(created);
    }

    ghost predicate Valid()
      reads this, segments, heap
    {
      heap in segments && Listed()
    }

    /** The list and the ledger are those of the model; the heap pointer need not point into the list. */
    ghost predicate Listed()
      reads this, segments, heap
    {
      && (forall s :: s in segments ==> s.key < nextKey)
      && AllDistinct(segments)
      && model == Tracker(model.segs, heap.key, nextKey, added, removed)
      && Represents(segments, model.segs)
    }

    lemma {:induction false} SameSegment(i: nat)
      requires Valid() && i < |segments| && segments[i].key == heap.key
      ensures segments[i] == heap
    {
      var h :| 0 <= h < |segments| && segments[h] == heap;
      SameKeySame(segments, i, h);
    }

    lemma {:induction false} HeapPointer(addr: int)
      requires Valid()
      ensures HeapContains(model, addr) <==> heap.View().Contains(addr)
    {
      var h :| 0 <= h < |segments| && segments[h] == heap;
      assert model.segs[h] == heap.View();
      forall i | 0 <= i < |segments| && segments[i].key == heap.key ensures segments[i] == heap {
        SameSegment(i);
      }
    }

    /** _heap->contains(addr). */
    method HeapHas(addr: int) returns (r: bool)
      requires Valid()
      ensures r == HeapContains(model, addr)
      ensures r == heap.View().Contains(addr)
    {
      HeapPointer(addr);
      r := heap.Contains(addr);
    }

    method UpdateHeapEnd(brk: int)
      requires Valid()
      modifies heap`endAddress, this`model
      ensures Valid() && model == UpdateHeap(old(model), brk)
      ensures heap.endAddress == brk
    {
      forall i | 0 <= i < |segments| && segments[i].key == heap.key ensures segments[i] == heap {
        SameSegment(i);
      }
      if heap.endAddress != brk {
        heap.endAddress := brk;
      }
      model := UpdateHeap(model, brk);
    }

    /** emplace_back followed by processSegmentAddition. */
    method EmplaceBack(start: nat, end: int, kind: Kind)
      requires Listed()
      modifies this
      ensures Listed() && heap == old(heap) && (Valid() <==> old(Valid()))
      ensures model == Append(old(model), start, end, kind)
    {
      var s := new MemorySegment(nextKey, start, end, kind);
      DistinctAppend(segments, s);
      segments := segments + [s];
      added := added + [nextKey];
      nextKey := nextKey + 1;
      model := Append(model, start, end, kind);
    }

    /** remove_if over containment of an address, with processSegmentRemoval for each one removed. The
        heap segment goes with the others, and leaves its pointer dangling, if it contains the address. */
    method RemoveContaining(ptr: int)
      requires Valid()
      modifies this
      ensures Listed() && heap == old(heap) && (Valid() <==> !old(heap.View().Contains(ptr)))
      ensures model == Remove(old(model), ptr)
    {
      var kept, gone := RemoveIf(segments, ptr, model.segs);
      segments := kept;
      removed := removed + gone;
      model := Remove(model, ptr);
    }

    method Record(result: nat, bytes: nat, inHeap: bool, kind: Kind)
      requires Listed()
      modifies this
      ensures Listed() && heap == old(heap) && (Valid() <==> old(Valid()))
      ensures model == if inHeap then old(model) else Append(old(model), result, result + bytes - 1, kind)
    {
      if !inHeap {
        EmplaceBack(result, result + bytes - 1, kind);
      }
    }

    method Release(ptr: int, wasInHeap: bool)
      requires Valid()
      modifies this
      ensures Listed() && heap == old(heap) && (Valid() <==> wasInHeap || !old(heap.View().Contains(ptr)))
      ensures model == if wasInHeap then old(model) else Remove(old(model), ptr)
    {
      if !wasInHeap {
        RemoveContaining(ptr);
      }
    }

    /** malloc, calloc and posix_memalign differ in the real call and in the name they record. */
    method HandleAllocation(result: nat, bytes: nat, brk: int, kind: Kind)
      requires Valid()
      modifies this, heap`endAddress
      ensures Valid() && heap == old(heap) && heap.endAddress == brk
      ensures model == Allocate(old(model), result, bytes, brk, kind)
    {
      UpdateHeapEnd(brk);
      var inHeap := HeapHas(result);
      Record(result, bytes, inHeap, kind);
    }

    method HandleMalloc(result: nat, size: nat, brk: int)
      requires Valid()
      modifies this, heap`endAddress
      ensures Valid() && model == Step(old(model), EMalloc(result, size, brk))
      ensures heap == old(heap) && heap.endAddress == brk
    {
      HandleAllocation(result, size, brk, Malloc);
    }

    method HandleCalloc(result: nat, nmemb: nat, size: nat, brk: int)
      requires Valid()
      modifies this, heap`endAddress
      ensures Valid() && model == Step(old(model), ECalloc(result, nmemb, size, brk))
      ensures heap == old(heap) && heap.endAddress == brk
    {
      HandleAllocation(result, Alignment.Bytes(nmemb, size), brk, Calloc);
    }

    method HandlePosixMemalign(result: nat, size: nat, brk: int)
      requires Valid()
      modifies this, heap`endAddress
      ensures Valid() && model == Step(old(model), EMemalign(result, size, brk))
      ensures heap == old(heap) && heap.endAddress == brk
    {
      HandleAllocation(result, size, brk, Memalign);
    }

    /** The heap pointer stays good exactly when the moved heap does not swallow an old block that was
        outside it, which an admissible call guarantees. */
    method HandleRealloc(ptr: nat, result: nat, size: nat, brk: int)
      requires Valid()
      modifies this, heap`endAddress
      ensures Listed() && model == Step(old(model), ERealloc(ptr, result, size, brk))
      ensures heap == old(heap) && heap.endAddress == brk
      ensures Valid() <==> HeapContains(old(model), ptr) || !HeapContains(UpdateHeap(old(model), brk), ptr)
      ensures Expected(old(model), ERealloc(ptr, result, size, brk)) ==> Valid()
    {
      var wasInHeap := HeapHas(ptr);
      ghost var m0 := model;
      UpdateHeapEnd(brk);
      ghost var m1 := model;
      var isInHeap := HeapHas(result);
      HeapPointer(ptr);
      ExpectedRealloc(m0, ptr, result, size, brk);
      Release(ptr, wasInHeap);
      ghost var m2 := model;
      Record(result, size, isInHeap, Realloc);
      ReallocateInSteps(m0, m1, m2, model, wasInHeap, isInHeap, ptr, result, size, brk);
    }

    method HandleFree(ptr: nat, brk: int)
      requires Valid()
      modifies this, heap`endAddress
      ensures Valid() && model == Step(old(model), EFree(ptr, brk))
      ensures heap == old(heap)
      ensures heap.endAddress == if old(heap.View().Contains(ptr)) then brk else old(heap.endAddress)
    {
      var wasInHeap := HeapHas(ptr);
      if wasInHeap {
        UpdateHeapEnd(brk);
      } else {
        RemoveContaining(ptr);
      }
    }

    method HandleMmap(result: nat, length: nat)
      requires Valid()
      modifies this
      ensures Valid() && model == Step(old(model), EMmap(result, length))
      ensures heap == old(heap)
    {
      EmplaceBack(result, result + length - 1, Mmap);
    }

    method HandleMunmap(addr: nat, length: nat)
      requires Valid()
      modifies this
      ensures Listed() && model == Step(old(model), EMunmap(addr, length))
      ensures heap == old(heap)
      ensures Valid() <==> !HeapContains(old(model), addr)
      ensures Expected(old(model), EMunmap(addr, length)) ==> Valid()
    {
      HeapPointer(addr);
      RemoveContaining(addr);
    }
  }

  lemma {:induction false} NotBefore(segments: seq<MemorySegment>, i: nat)
    requires AllDistinct(segments) && i < |segments|
    ensures forall s :: s in segments[..i] ==> s.key != segments[i].key
  {
    forall s | s in segments[..i] ensures s.key != segments[i].key {
      var j :| 0 <= j < i && segments[..i][j] == s;
      assert Different(segments, j, i);
    }
  }
}
