/** Memory segments: address ranges with an inclusive end. */
module Segments {
  import Alignment

  datatype Kind = Heap | Stack | Text | Data | Anonymous | Malloc | Calloc | Realloc | Memalign | Mmap

  /** A segment's fields, and a key that stands for its identity in the list. */
  datatype Seg = Seg(key: nat, start: nat, end: int, kind: Kind) {

    predicate Contains(addr: int) {
      start <= addr <= end
    }

    predicate IntersectsWith(other: Seg) {
      Contains(other.start) || Contains(other.end) || other.Contains(start) || other.Contains(end)
    }

    predicate IsDisjointWith(other: Seg) {
      !IntersectsWith(other)
    }

    function Length(): int {
      end - start + 1
    }
  }

  /** The interval test of the source is the overlap test: no shared byte is missed and none invented. */
  lemma {:induction false} IntersectsIffShared(a: Seg, b: Seg)
    requires a.start <= a.end && b.start <= b.end
    ensures a.IntersectsWith(b) <==> exists x: int :: a.Contains(x) && b.Contains(x)
    ensures a.IntersectsWith(b) <==> b.IntersectsWith(a)
    ensures a.IsDisjointWith(b) <==> a.end < b.start || b.end < a.start
  {
    if a.Contains(b.start) {
      assert b.Contains(b.start);
    } else if b.Contains(a.start) {
      assert a.Contains(a.start);
    } else {
      forall x: int ensures !(a.Contains(x) && b.Contains(x)) {
      }
    }
  }

  // ----- page-aligned ranges -----

  function AlignedStart(s: Seg, g: nat): nat
    requires 0 < g
  {
    Alignment.AlignDown(s.start, g)
  }

  function AlignedEnd(s: Seg, g: nat): nat
    requires 0 < g && 0 <= s.end
  {
    Alignment.AlignUp(s.end, g)
  }

  function AlignedLength(s: Seg, g: nat): int
    requires 0 < g && 0 <= s.end
  {
    AlignedEnd(s, g) - AlignedStart(s, g)
  }

  predicate InAlignedRange(s: Seg, g: nat, x: int)
    requires 0 < g && 0 <= s.end
  {
    AlignedStart(s, g) <= x < AlignedEnd(s, g)
  }

  /** The aligned range is a whole number of pages, starting on a page. */
  lemma {:induction false} AlignedWhole(s: Seg, g: nat)
    requires 0 < g && s.start <= s.end
    ensures 0 <= AlignedLength(s, g) && Alignment.Whole(AlignedLength(s, g), g)
    ensures Alignment.Whole(AlignedStart(s, g), g) && Alignment.Whole(AlignedEnd(s, g), g)
  {
    var a, b := Alignment.PageOf(s.start, g), Alignment.PageOf(s.end + g - 1, g);
    Alignment.PageMonotone(s.start, s.end + g - 1, g);
    Alignment.BytesWhole(a, g);
    Alignment.BytesWhole(b, g);
    WholeDifference(a, b, g);
  }

  lemma {:induction false} WholeDifference(a: nat, b: nat, g: nat)
    requires 0 < g && a <= b
    ensures 0 <= Alignment.Bytes(b, g) - Alignment.Bytes(a, g)
    ensures Alignment.Whole(Alignment.Bytes(b, g) - Alignment.Bytes(a, g), g)
  {
    Alignment.BytesAdd(a, b - a, g);
    Alignment.BytesWhole(b - a, g);
  }

  /** It holds every byte of the segment up to but excluding the last, and the last one exactly when
      that address is not itself page-aligned; at neither end it goes a whole page too far. */
  lemma {:induction false} AlignedRange(s: Seg, g: nat)
    requires 0 < g && s.start <= s.end
    ensures forall x: int :: s.Contains(x) && x != s.end ==> InAlignedRange(s, g, x)
    ensures InAlignedRange(s, g, s.end) <==> !Alignment.Whole(s.end, g)
    ensures s.start - g < AlignedStart(s, g) <= s.start && s.end <= AlignedEnd(s, g) < s.end + g
  {
    if Alignment.Whole(s.end, g) {
      Alignment.PageUnique(s.end + g - 1, Alignment.PageOf(s.end, g), g);
    } else {
      Alignment.BytesWhole(Alignment.PageOf(s.end + g - 1, g), g);
    }
  }
}
