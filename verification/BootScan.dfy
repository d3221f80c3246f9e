/** The list that the tracker starts from: the lines of the maps file that the constructor records. */
module BootScan {
  import opened Outcomes
  import opened Segments
  import opened RegionTracker

  datatype LineName = HeapName | StackName | NoName | OtherName

  /** A parsed line of the maps file; the end address is exclusive there. */
  datatype Line = Line(start: nat, endExclusive: nat, name: LineName)

  datatype Recorded = Skip | As(kind: Kind)

  /** The constructor's classification: which lines are recorded, and as what. */
  function Classify(l: Line, textAddr: int, dataAddr: int): Recorded {
    var last := l.endExclusive - 1;
    if l.name == HeapName then As(Heap)
    else if l.name == StackName then As(Stack)
    else if l.start <= textAddr <= last then As(Text)
    else if l.start <= dataAddr <= last then As(Data)
    else if l.name == NoName then As(Anonymous)
    else Skip
  }

  /** The list after the lines read so far, and the segments found: heap (the last one wins), stack,
      text and data. */
  datatype Scan = Scan(t: Tracker, heap: seq<nat>, stack: bool, text: bool, data: bool)

  function Record(t: Tracker, start: nat, end: int, kind: Kind): Tracker {
    Tracker(t.segs + [Seg(t.nextKey, start, end, kind)],
            if kind == Heap then t.nextKey else t.heap,
            t.nextKey + 1,
            if kind == Stack then t.added else t.added + [t.nextKey],
            t.removed)
  }

  function ScanLine(s: Scan, l: Line, textAddr: int, dataAddr: int): Scan {
    match Classify(l, textAddr, dataAddr)
    case Skip => s
    case As(kind) => Found(s, l, kind)
  }

  function Found(s: Scan, l: Line, kind: Kind): Scan {
    Scan(Record(s.t, l.start, l.endExclusive - 1, kind),
         if kind == Heap then [s.t.nextKey] else s.heap,
         s.stack || kind == Stack, s.text || kind == Text, s.data || kind == Data)
  }

  function ScanLines(lines: seq<Line>, textAddr: int, dataAddr: int): Scan {
    if lines == [] then Scan(Tracker([], 0, 0, [], []), [], false, false, false)
    else ScanLine(ScanLines(lines[..|lines| - 1], textAddr, dataAddr), lines[|lines| - 1], textAddr, dataAddr)
  }

  function Boot(lines: seq<Line>, textAddr: int, dataAddr: int): Outcome<Tracker> {
    var s := ScanLines(lines, textAddr, dataAddr);
    if s.heap == [] then Die("didnt find the heap!")
    else if !s.stack then Die("didnt find the stack!")
    else if !s.text then Die("didnt find the text segment!")
    else if !s.data then Die("didnt find the data segment!")
    else Ok(s.t)
  }

  /** The kernel's lines: non-empty, not at 0, and no two overlapping. */
  ghost predicate MapsFile(lines: seq<Line>) {
    && (forall i :: 0 <= i < |lines| ==> 0 < lines[i].start < lines[i].endExclusive)
    && (forall i, j :: 0 <= i < j < |lines| ==> LinesApart(lines, i, j))
  }

  ghost predicate LinesApart(lines: seq<Line>, i: nat, j: nat)
    requires i < |lines| && j < |lines|
  {
    lines[i].endExclusive <= lines[j].start || lines[j].endExclusive <= lines[i].start
  }

  ghost predicate FromLine(s: Seg, lines: seq<Line>) {
    exists i :: 0 <= i < |lines| && s.start == lines[i].start && s.end == lines[i].endExclusive - 1
  }

  ghost predicate ScanInv(s: Scan, lines: seq<Line>) {
    && Rising(s.t.segs) && PairwiseDisjoint(s.t.segs) && Ledger(s.t)
    && (forall i :: 0 <= i < |s.t.segs| ==> s.t.segs[i].key < s.t.nextKey)
    && FromLines(s.t.segs, lines)
    && (s.heap != [] ==> s.heap == [s.t.heap] && s.t.heap < s.t.nextKey && HasKey(s.t.segs, s.t.heap))
  }

  lemma {:induction false} FromMoreLines(s: Seg, lines: seq<Line>, l: Line)
    requires FromLine(s, lines)
    ensures FromLine(s, lines + [l])
  {
    var k :| 0 <= k < |lines| && s.start == lines[k].start && s.end == lines[k].endExclusive - 1;
    assert (lines + [l])[k] == lines[k];
  }

  lemma {:induction false} LineApart(s: Seg, lines: seq<Line>, l: Line)
    requires MapsFile(lines + [l]) && FromLine(s, lines)
    ensures ApartFrom(s, l.start, l.endExclusive - 1)
    ensures 0 < l.start < l.endExclusive && s.start <= s.end
  {
    var all := lines + [l];
    var k :| 0 <= k < |lines| && s.start == lines[k].start && s.end == lines[k].endExclusive - 1;
    assert all[k] == lines[k] && all[|lines|] == l;
    assert LinesApart(all, k, |lines|);
  }

  lemma {:induction false} RecordKeeps(t: Tracker, start: nat, end: int, kind: Kind)
    requires Rising(t.segs) && PairwiseDisjoint(t.segs) && Ledger(t) && start <= end
    requires forall i :: 0 <= i < |t.segs| ==>
      t.segs[i].key < t.nextKey && t.segs[i].start <= t.segs[i].end && ApartFrom(t.segs[i], start, end)
    ensures var t' := Record(t, start, end, kind); Rising(t'.segs) && PairwiseDisjoint(t'.segs) && Ledger(t')
  {
    var latest := Seg(t.nextKey, start, end, kind);
    AnnouncedAppend(t.segs, latest);
    AppendOrdered(t.segs, latest);
  }

  lemma {:induction false} RecordHeap(s: Scan, s': Scan, start: nat, end: int, kind: Kind)
    requires s'.t == Record(s.t, start, end, kind) && s'.heap == if kind == Heap then [s.t.nextKey] else s.heap
    requires s.heap != [] ==> s.heap == [s.t.heap] && s.t.heap < s.t.nextKey && HasKey(s.t.segs, s.t.heap)
    ensures s'.heap != [] ==> s'.heap == [s'.t.heap] && s'.t.heap < s'.t.nextKey && HasKey(s'.t.segs, s'.t.heap)
  {
    var n := |s.t.segs|;
    if kind == Heap {
      assert s'.t.segs[n].key == s'.t.heap;
    } else if s.heap != [] {
      var i :| 0 <= i < n && s.t.segs[i].key == s.t.heap;
      assert s'.t.segs[i].key == s'.t.heap;
    }
  }

  /** Every segment so far is a line so far, and clear of the next line. */
  ghost predicate FromLines(segs: seq<Seg>, lines: seq<Line>) {
    forall i :: 0 <= i < |segs| ==> FromLine(segs[i], lines)
  }

  lemma {:induction false} FromLinesGrow(segs: seq<Seg>, lines: seq<Line>, l: Line)
    requires FromLines(segs, lines)
    ensures FromLines(segs, lines + [l])
  {
    forall i | 0 <= i < |segs| ensures FromLine(segs[i], lines + [l]) {
      FromMoreLines(segs[i], lines, l);
    }
  }

  lemma {:induction false} FromLinesAppend(segs: seq<Seg>, s: Seg, lines: seq<Line>, l: Line)
    requires FromLines(segs, lines) && s.start == l.start && s.end == l.endExclusive - 1
    ensures FromLines(segs + [s], lines + [l])
  {
    FromLinesGrow(segs, lines, l);
    assert (lines + [l])[|lines|] == l;
    assert FromLine(s, lines + [l]);
  }

  lemma {:induction false} RecordLine(t: Tracker, lines: seq<Line>, l: Line, kind: Kind)
    requires MapsFile(lines + [l]) && FromLines(t.segs, lines)
    requires Rising(t.segs) && PairwiseDisjoint(t.segs) && Ledger(t)
    requires forall i :: 0 <= i < |t.segs| ==> t.segs[i].key < t.nextKey
    ensures var t' := Record(t, l.start, l.endExclusive - 1, kind);
            && Rising(t'.segs) && PairwiseDisjoint(t'.segs) && Ledger(t') && FromLines(t'.segs, lines + [l])
            && (forall i :: 0 <= i < |t'.segs| ==> t'.segs[i].key < t'.nextKey)
  {
    assert (lines + [l])[|lines|] == l;
    forall i | 0 <= i < |t.segs|
      ensures t.segs[i].start <= t.segs[i].end && ApartFrom(t.segs[i], l.start, l.endExclusive - 1)
    {
      assert FromLine(t.segs[i], lines);
      LineApart(t.segs[i], lines, l);
    }
    RecordKeeps(t, l.start, l.endExclusive - 1, kind);
    FromLinesAppend(t.segs, Seg(t.nextKey, l.start, l.endExclusive - 1, kind), lines, l);
  }

  lemma {:induction false} FoundKeeps(s: Scan, lines: seq<Line>, l: Line, kind: Kind)
    requires MapsFile(lines + [l]) && ScanInv(s, lines)
    ensures ScanInv(Found(s, l, kind), lines + [l])
  {
    var s' := Found(s, l, kind);
    assert s'.t == Record(s.t, l.start, l.endExclusive - 1, kind);
    RecordLine(s.t, lines, l, kind);
    RecordHeap(s, s', l.start, l.endExclusive - 1, kind);
  }

  lemma {:induction false} SkipKeeps(s: Scan, lines: seq<Line>, l: Line)
    requires ScanInv(s, lines)
    ensures ScanInv(s, lines + [l])
  {
    FromLinesGrow(s.t.segs, lines, l);
  }

  lemma {:induction false} ScanStep(s: Scan, lines: seq<Line>, l: Line, textAddr: int, dataAddr: int)
    requires MapsFile(lines + [l]) && ScanInv(s, lines)
    ensures ScanInv(ScanLine(s, l, textAddr, dataAddr), lines + [l])
  {
    match Classify(l, textAddr, dataAddr)
    case Skip => SkipKeeps(s, lines, l);
    case As(kind) => FoundKeeps(s, lines, l, kind);
  }

  lemma {:induction false} ScanKeeps(lines: seq<Line>, textAddr: int, dataAddr: int)
    requires MapsFile(lines)
    ensures ScanInv(ScanLines(lines, textAddr, dataAddr), lines)
  {
    if lines != [] {
      var init, l := lines[..|lines| - 1], lines[|lines| - 1];
      assert lines == init + [l];
      forall i, j | 0 <= i < j < |init| ensures LinesApart(init, i, j) {
        assert LinesApart(lines, i, j);
      }
      ScanKeeps(init, textAddr, dataAddr);
      ScanStep(ScanLines(init, textAddr, dataAddr), init, l, textAddr, dataAddr);
    }
  }

  /** The list the constructor builds satisfies the invariant, whatever blocks are already live in the
      heap, and every key given out so far is a boot key. */
  lemma {:induction false} BootEstablishes(lines: seq<Line>, textAddr: int, dataAddr: int, live: Live)
    requires MapsFile(lines) && Boot(lines, textAddr, dataAddr).Ok?
    requires InHeap(Boot(lines, textAddr, dataAddr).value, live)
    ensures var t := Boot(lines, textAddr, dataAddr).value; Inv(t, live, t.nextKey)
  {
    BootInvariant(lines, textAddr, dataAddr);
    var t := Boot(lines, textAddr, dataAddr).value;
    forall i | 0 <= i < |t.segs| ensures Backed(t.segs[i], live, t.nextKey) {
    }
  }

  /** Non-empty blocks inside the heap. */
  ghost predicate InHeap(t: Tracker, live: Live) {
    forall p :: p in live ==> 0 < p && 0 < live[p] && HeapContains(t, p) && HeapContains(t, p + live[p] - 1)
  }

  lemma {:induction false} BootInvariant(lines: seq<Line>, textAddr: int, dataAddr: int)
    requires MapsFile(lines) && Boot(lines, textAddr, dataAddr).Ok?
    ensures var t := Boot(lines, textAddr, dataAddr).value; Inv(t, map[], t.nextKey)
  {
    ScanKeeps(lines, textAddr, dataAddr);
    var t := ScanLines(lines, textAddr, dataAddr).t;
    forall i | 0 <= i < |t.segs| ensures 0 < t.segs[i].start <= t.segs[i].end {
      assert FromLine(t.segs[i], lines);
    }
  }

  // ----- which lines are recorded -----

  predicate HasAddress(l: Line, addr: int) {
    l.start <= addr <= l.endExclusive - 1
  }

  /** The lines that make a segment: the heap, the stack, the ones that hold the two addresses, and those
      without a name. */
  predicate Wanted(l: Line, textAddr: int, dataAddr: int) {
    l.name == HeapName || l.name == StackName || l.name == NoName || HasAddress(l, textAddr) || HasAddress(l, dataAddr)
  }

  /** As what: the name goes before the addresses, and the text before the data. */
  function WantedAs(l: Line, textAddr: int, dataAddr: int): Kind {
    match l.name
    case HeapName => Heap
    case StackName => Stack
    case _ => if HasAddress(l, textAddr) then Text else if HasAddress(l, dataAddr) then Data else Anonymous
  }

  /** Segment j comes from line from[j], and the wanted lines are recorded in order, each once. */
  ghost predicate RecordsOf(segs: seq<Seg>, lines: seq<Line>, textAddr: int, dataAddr: int, from: seq<nat>) {
    && |from| == |segs|
    && (forall j :: 0 <= j < |from| ==> RecordOf(segs, lines, textAddr, dataAddr, from, j))
    && (forall i, j :: 0 <= i < j < |from| ==> from[i] < from[j])
    && (forall i :: 0 <= i < |lines| && Wanted(lines[i], textAddr, dataAddr) ==> i in from)
  }

  ghost predicate RecordOf(segs: seq<Seg>, lines: seq<Line>, textAddr: int, dataAddr: int, from: seq<nat>, j: nat)
    requires j < |from| == |segs|
  {
    && from[j] < |lines| && Wanted(lines[from[j]], textAddr, dataAddr)
    && segs[j] == Seg(j, lines[from[j]].start, lines[from[j]].endExclusive - 1,
                      WantedAs(lines[from[j]], textAddr, dataAddr))
  }

  /** All segments but the stack are announced, in their order, and none is withdrawn. */
  function AnnouncedInOrder(segs: seq<Seg>): seq<nat> {
    if segs == [] then []
    else AnnouncedInOrder(segs[..|segs| - 1])
         + (if segs[|segs| - 1].kind == Stack then [] else [segs[|segs| - 1].key])
  }

  /** The heap pointer is the last of the segments called heap. */
  ghost predicate LastHeap(t: Tracker) {
    && t.heap < |t.segs| && t.segs[t.heap].kind == Heap
    && forall j :: t.heap < j < |t.segs| ==> t.segs[j].kind != Heap
  }

  ghost predicate ScanRecords(s: Scan, lines: seq<Line>, textAddr: int, dataAddr: int, from: seq<nat>) {
    && RecordsOf(s.t.segs, lines, textAddr, dataAddr, from)
    && s.t.nextKey == |s.t.segs| && s.t.added == AnnouncedInOrder(s.t.segs) && s.t.removed == []
    && (s.heap != [] ==> LastHeap(s.t))
    && FlagsMatch(s)
  }

  /** The constructor knows which kinds it has found. */
  ghost predicate FlagsMatch(s: Scan) {
    && (s.heap != [] <==> HasKind(s.t.segs, Heap)) && (s.stack <==> HasKind(s.t.segs, Stack))
    && (s.text <==> HasKind(s.t.segs, Text)) && (s.data <==> HasKind(s.t.segs, Data))
  }

  ghost predicate HasKind(segs: seq<Seg>, kind: Kind) {
    exists j :: 0 <= j < |segs| && segs[j].kind == kind
  }

  lemma {:induction false} HasKindMore(segs: seq<Seg>, s: Seg, kind: Kind)
    ensures HasKind(segs + [s], kind) <==> HasKind(segs, kind) || s.kind == kind
  {
    if HasKind(segs, kind) {
      var j :| 0 <= j < |segs| && segs[j].kind == kind;
      assert (segs + [s])[j] == segs[j];
    }
    assert (segs + [s])[|segs|] == s;
  }

  lemma {:induction false} RecordsMore(segs: seq<Seg>, lines: seq<Line>, l: Line, textAddr: int, dataAddr: int,
                                       from: seq<nat>) returns (more: seq<nat>)
    requires RecordsOf(segs, lines, textAddr, dataAddr, from)
    ensures RecordsOf(if Wanted(l, textAddr, dataAddr)
                      then segs + [Seg(|segs|, l.start, l.endExclusive - 1, WantedAs(l, textAddr, dataAddr))] else segs,
                      lines + [l], textAddr, dataAddr, more)
  {
    var wanted := Wanted(l, textAddr, dataAddr);
    more := if wanted then from + [|lines|] else from;
    var all := lines + [l];
    var list := if wanted then segs + [Seg(|segs|, l.start, l.endExclusive - 1, WantedAs(l, textAddr, dataAddr))]
                else segs;
    forall j | 0 <= j < |more| ensures RecordOf(list, all, textAddr, dataAddr, more, j) {
      if j < |from| { assert RecordOf(segs, lines, textAddr, dataAddr, from, j); }
    }
    forall i, j | 0 <= i < j < |more| ensures more[i] < more[j] {
      assert RecordOf(segs, lines, textAddr, dataAddr, from, i);
    }
    forall i | 0 <= i < |all| && Wanted(all[i], textAddr, dataAddr) ensures i in more {
      if i < |lines| {
        assert i in from;
      } else {
        assert more[|from|] == i;
      }
    }
  }

  /** A line is recorded exactly when it is wanted, and as what it is wanted. */
  lemma {:induction false} ScanLineIs(s: Scan, l: Line, textAddr: int, dataAddr: int)
    ensures ScanLine(s, l, textAddr, dataAddr)
         == if Wanted(l, textAddr, dataAddr) then Found(s, l, WantedAs(l, textAddr, dataAddr)) else s
  {
  }

  lemma {:induction false} FoundRecords(s: Scan, l: Line, kind: Kind, lines: seq<Line>, textAddr: int, dataAddr: int,
                                        from: seq<nat>, more: seq<nat>)
    requires ScanRecords(s, lines, textAddr, dataAddr, from)
    requires RecordsOf(s.t.segs + [Seg(|s.t.segs|, l.start, l.endExclusive - 1, kind)], lines + [l], textAddr, dataAddr,
                       more)
    ensures ScanRecords(Found(s, l, kind), lines + [l], textAddr, dataAddr, more)
  {
    var seg := Seg(|s.t.segs|, l.start, l.endExclusive - 1, kind);
    assert (s.t.segs + [seg])[..|s.t.segs|] == s.t.segs;
    FlagsMore(s, l, kind);
  }

  lemma {:induction false} FlagsMore(s: Scan, l: Line, kind: Kind)
    requires FlagsMatch(s)
    ensures FlagsMatch(Found(s, l, kind))
  {
    var seg := Seg(s.t.nextKey, l.start, l.endExclusive - 1, kind);
    HasKindMore(s.t.segs, seg, Heap);
    HasKindMore(s.t.segs, seg, Stack);
    HasKindMore(s.t.segs, seg, Text);
    HasKindMore(s.t.segs, seg, Data);
  }

  lemma {:induction false} ScanIsRecords(lines: seq<Line>, textAddr: int, dataAddr: int) returns (from: seq<nat>)
    ensures ScanRecords(ScanLines(lines, textAddr, dataAddr), lines, textAddr, dataAddr, from)
    decreases |lines|
  {
    if lines == [] {
      from := [];
    } else {
      var init, l := lines[..|lines| - 1], lines[|lines| - 1];
      assert lines == init + [l];
      from := ScanIsRecords(init, textAddr, dataAddr);
      var s := ScanLines(init, textAddr, dataAddr);
      var more := RecordsMore(s.t.segs, init, l, textAddr, dataAddr, from);
      ScanLineIs(s, l, textAddr, dataAddr);
      if Wanted(l, textAddr, dataAddr) {
        FoundRecords(s, l, WantedAs(l, textAddr, dataAddr), init, textAddr, dataAddr, from, more);
      }
      from := more;
    }
  }

  ghost predicate LineOf(lines: seq<Line>, textAddr: int, dataAddr: int, kind: Kind) {
    exists i :: 0 <= i < |lines| && Wanted(lines[i], textAddr, dataAddr)
             && WantedAs(lines[i], textAddr, dataAddr) == kind
  }

  lemma {:induction false} KindFromLine(segs: seq<Seg>, lines: seq<Line>, textAddr: int, dataAddr: int, from: seq<nat>,
                                        kind: Kind)
    requires RecordsOf(segs, lines, textAddr, dataAddr, from)
    ensures HasKind(segs, kind) <==> LineOf(lines, textAddr, dataAddr, kind)
  {
    if HasKind(segs, kind) {
      var j :| 0 <= j < |segs| && segs[j].kind == kind;
      assert RecordOf(segs, lines, textAddr, dataAddr, from, j);
    }
    if LineOf(lines, textAddr, dataAddr, kind) {
      var i :| 0 <= i < |lines| && Wanted(lines[i], textAddr, dataAddr) && WantedAs(lines[i], textAddr, dataAddr) == kind;
      var j :| 0 <= j < |from| && from[j] == i;
      assert RecordOf(segs, lines, textAddr, dataAddr, from, j);
    }
  }

  /** The constructor's list holds exactly the wanted lines, in order and each under its kind; all but the
      stack are announced; the heap is the last line of that name.  It fails exactly when there is no line
      for the heap, the stack, the text or the data, in that order. */
  lemma {:induction false} BootRecords(lines: seq<Line>, textAddr: int, dataAddr: int) returns (from: seq<nat>)
    ensures var boot := Boot(lines, textAddr, dataAddr);
            boot.Ok? ==>
              && RecordsOf(boot.value.segs, lines, textAddr, dataAddr, from) && LastHeap(boot.value)
              && boot.value.added == AnnouncedInOrder(boot.value.segs) && boot.value.removed == []
              && boot.value.nextKey == |boot.value.segs|
    ensures Boot(lines, textAddr, dataAddr).Ok? <==>
      && LineOf(lines, textAddr, dataAddr, Heap) && LineOf(lines, textAddr, dataAddr, Stack)
      && LineOf(lines, textAddr, dataAddr, Text) && LineOf(lines, textAddr, dataAddr, Data)
    ensures var boot := Boot(lines, textAddr, dataAddr);
            boot.Die? ==> boot.message == (if !LineOf(lines, textAddr, dataAddr, Heap) then "didnt find the heap!"
                                           else if !LineOf(lines, textAddr, dataAddr, Stack) then "didnt find the stack!"
                                           else if !LineOf(lines, textAddr, dataAddr, Text)
                                                then "didnt find the text segment!"
                                           else "didnt find the data segment!")
  {
    from := ScanIsRecords(lines, textAddr, dataAddr);
    var segs := ScanLines(lines, textAddr, dataAddr).t.segs;
    KindFromLine(segs, lines, textAddr, dataAddr, from, Heap);
    KindFromLine(segs, lines, textAddr, dataAddr, from, Stack);
    KindFromLine(segs, lines, textAddr, dataAddr, from, Text);
    KindFromLine(segs, lines, textAddr, dataAddr, from, Data);
  }
}
