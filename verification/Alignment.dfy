/** Page alignment: the bit masks of the source and the arithmetic they stand for. */
module Alignment {

  function Pow2(k: nat): (p: nat)
    ensures 0 < p
  {
    if k == 0 then 1 else 2 * Pow2(k - 1)
  }

  // ----- whole pages -----

  /** The size of `p` pages of `g` bytes. */
  function Bytes(p: nat, g: nat): nat {
    if p == 0 then 0 else Bytes(p - 1, g) + g
  }

  /** The number of the page that byte `x` is on.  This is x / g, by repeated subtraction, which keeps
      division by a variable out of the proofs that only need its defining property. */
  function PageOf(x: nat, g: nat): (p: nat)
    requires 0 < g
    ensures Bytes(p, g) <= x < Bytes(p, g) + g
  {
    if x < g then 0 else 1 + PageOf(x - g, g)
  }

  ghost predicate Whole(x: nat, g: nat)
    requires 0 < g
  {
    x == Bytes(PageOf(x, g), g)
  }

  function AlignDown(x: nat, g: nat): (r: nat)
    requires 0 < g
    ensures r <= x < r + g
  {
    Bytes(PageOf(x, g), g)
  }

  function AlignUp(x: nat, g: nat): (r: nat)
    requires 0 < g
    ensures x <= r < x + g
  {
    AlignDown(x + g - 1, g)
  }

  lemma {:induction false} BytesAdd(p: nat, q: nat, g: nat)
    ensures Bytes(p + q, g) == Bytes(p, g) + Bytes(q, g)
  {
    if q > 0 { BytesAdd(p, q - 1, g); }
  }

  lemma {:induction false} BytesOrdered(p: nat, q: nat, g: nat)
    requires 0 < g
    ensures p < q <==> Bytes(p, g) < Bytes(q, g)
    ensures p < q ==> Bytes(p, g) + g <= Bytes(q, g)
  {
    if p < q {
      BytesAdd(p + 1, q - p - 1, g);
    } else {
      BytesAdd(q, p - q, g);
    }
  }

  /** A page is found from any of its bytes. */
  lemma {:induction false} PageUnique(x: nat, p: nat, g: nat)
    requires 0 < g && Bytes(p, g) <= x < Bytes(p, g) + g
    ensures PageOf(x, g) == p
  {
    BytesOrdered(p, PageOf(x, g), g);
    BytesOrdered(PageOf(x, g), p, g);
  }

  lemma {:induction false} PageMonotone(x: nat, y: nat, g: nat)
    requires 0 < g && x <= y
    ensures PageOf(x, g) <= PageOf(y, g)
  {
    BytesOrdered(PageOf(y, g), PageOf(x, g), g);
  }

  lemma {:induction false} BytesWhole(p: nat, g: nat)
    requires 0 < g
    ensures PageOf(Bytes(p, g), g) == p && Whole(Bytes(p, g), g)
  {
    PageUnique(Bytes(p, g), p, g);
  }

  /** Aligned addresses are whole, and AlignUp is the least whole one from `x` on. */
  lemma {:induction false} AlignWhole(x: nat, g: nat)
    requires 0 < g
    ensures Whole(AlignDown(x, g), g) && Whole(AlignUp(x, g), g)
    ensures forall p :: x <= Bytes(p, g) ==> AlignUp(x, g) <= Bytes(p, g)
  {
    BytesWhole(PageOf(x, g), g);
    BytesWhole(PageOf(x + g - 1, g), g);
    forall p | x <= Bytes(p, g) ensures AlignUp(x, g) <= Bytes(p, g) {
      BytesOrdered(p, PageOf(x + g - 1, g), g);
    }
  }

  lemma {:induction false} BytesIsProduct(p: nat, g: nat)
    ensures Bytes(p, g) == p * g
  {
    if p > 0 {
      BytesIsProduct(p - 1, g);
      assert p * g == (p - 1) * g + g;
    }
  }

  /** The same things in the arithmetic of the source. */
  lemma {:induction false} PagesAreQuotients(x: nat, g: nat)
    requires 0 < g
    ensures PageOf(x, g) == x / g
    ensures AlignDown(x, g) == x - x % g
    ensures Whole(x, g) <==> x % g == 0
  {
    var p := PageOf(x, g);
    BytesIsProduct(p, g);
    DivModUnique(x, g, p, x - Bytes(p, g));
  }

  lemma {:induction false} SmallMultiple(d: int, g: nat)
    requires d * g < g
    ensures d <= 0
  {
    assert 0 < d ==> (d - 1) * g >= 0;
  }

  lemma {:induction false} DivModUnique(x: nat, d: nat, q: nat, r: nat)
    requires x == q * d + r && r < d
    ensures x / d == q && x % d == r
  {
    var q' := x / d;
    assert x == q' * d + x % d;
    assert (q - q') * d == x % d - r && (q' - q) * d == r - x % d;
    SmallMultiple(q - q', d);
    SmallMultiple(q' - q, d);
  }

  // ----- the masks themselves, bit by bit -----

  /** The low `w` bits of `x & y`. */
  function And(w: nat, x: nat, y: nat): (r: nat)
  {
    if w == 0 then 0
    else (if x % 2 == 1 && y % 2 == 1 then 1 else 0) + 2 * And(w - 1, x / 2, y / 2)
  }

  /** `~x` on a `w`-bit word. */
  function Not(w: nat, x: nat): (r: nat)
    ensures r < Pow2(w)
  {
    if w == 0 then 0 else (1 - x % 2) + 2 * Not(w - 1, x / 2)
  }

  /** The usual conversion of an `i`-bit int, given as its bit pattern, to a `w`-bit word. */
  function SignExtend(i: nat, w: nat, x: nat): (r: nat)
    requires 0 < i <= w
  {
    PowersOrdered(i, w);
    if x < Pow2(i - 1) then x else x + (Pow2(w) - Pow2(i))
  }

  /** PAGE_MASK for a page of 2^k bytes: an `i`-bit int that every use mixes with a `w`-bit word
      (32 and 64 on the systems the library runs on). */
  function PageMask(i: nat, w: nat, k: nat): nat
    requires 0 < i <= w
  {
    SignExtend(i, w, Not(i, Pow2(k) - 1))
  }

  function MaskDown(i: nat, w: nat, x: nat, k: nat): nat
    requires 0 < i <= w
  {
    And(w, x, PageMask(i, w, k))
  }

  /** Addition of two `w`-bit words. */
  function WordAdd(w: nat, x: nat, y: nat): nat
    requires x < Pow2(w) && y < Pow2(w)
  {
    if x + y < Pow2(w) then x + y else x + y - Pow2(w)
  }

  function MaskUp(i: nat, w: nat, x: nat, k: nat): nat
    requires 0 < i <= w && x < Pow2(w)
  {
    And(w, WordAdd(w, x, Not(w, PageMask(i, w, k))), PageMask(i, w, k))
  }

  lemma {:induction false} PowersOrdered(j: nat, k: nat)
    requires j <= k
    ensures Pow2(j) <= Pow2(k) && (j < k ==> 2 * Pow2(j) <= Pow2(k))
  {
    if j < k { PowersOrdered(j, k - 1); }
  }

  lemma {:induction false} NotIsComplement(w: nat, x: nat)
    requires x < Pow2(w)
    ensures Not(w, x) == Pow2(w) - 1 - x
  {
    if w > 0 { NotIsComplement(w - 1, x / 2); }
  }

  lemma {:induction false} AllOnes(w: nat, x: nat)
    requires x < Pow2(w)
    ensures And(w, x, Pow2(w) - 1) == x
  {
    if w > 0 {
      assert (Pow2(w) - 1) / 2 == Pow2(w - 1) - 1;
      AllOnes(w - 1, x / 2);
    }
  }

  lemma {:induction false} HalfMod(x: nat, p: nat)
    requires 0 < p
    ensures 2 * (x / 2 - (x / 2) % p) == x - x % (2 * p)
  {
    var q := x / (2 * p);
    var r := x % (2 * p);
    assert x == q * (2 * p) + r;
    assert q * (2 * p) == 2 * (q * p);
    assert x / 2 == q * p + r / 2 && r / 2 < p;
    DivModUnique(x / 2, p, q, r / 2);
  }

  lemma {:induction false} AndEven(w: nat, x: nat, h: nat)
    requires 0 < w
    ensures And(w, x, 2 * h) == 2 * And(w - 1, x / 2, h)
  {
    assert (2 * h) % 2 == 0 && (2 * h) / 2 == h;
  }

  /** Masking with the complement of 2^k - 1 clears the low k bits and nothing else. */
  lemma {:induction false} HighMask(w: nat, x: nat, k: nat, m: nat)
    requires k <= w && x < Pow2(w) && m == Pow2(w) - Pow2(k)
    ensures And(w, x, m) == x - x % Pow2(k)
    decreases w
  {
    if k == 0 {
      AllOnes(w, x);
    } else {
      PowersOrdered(k - 1, w - 1);
      var h := Pow2(w - 1) - Pow2(k - 1);
      assert And(w, x, m) == 2 * And(w - 1, x / 2, h) by { AndEven(w, x, h); }
      HighMask(w - 1, x / 2, k - 1, h);
      HalfMod(x, Pow2(k - 1));
    }
  }

  lemma {:induction false} SignExtendHigh(i: nat, w: nat, k: nat, n: nat)
    requires k < i <= w && n == Pow2(i) - Pow2(k)
    ensures SignExtend(i, w, n) == Pow2(w) - Pow2(k)
  {
    PowersOrdered(k, i - 1);
    PowersOrdered(i, w);
  }

  /** The mask, sign-extended, is the word with exactly the low k bits clear. */
  lemma {:induction false} PageMaskValue(i: nat, w: nat, k: nat)
    requires k < i <= w
    ensures PageMask(i, w, k) == Pow2(w) - Pow2(k)
  {
    PowersOrdered(k, i);
    NotIsComplement(i, Pow2(k) - 1);
    SignExtendHigh(i, w, k, Not(i, Pow2(k) - 1));
  }

  lemma {:induction false} PageMaskComplement(i: nat, w: nat, k: nat)
    requires k < i <= w
    ensures Not(w, PageMask(i, w, k)) == Pow2(k) - 1
  {
    PageMaskValue(i, w, k);
    PowersOrdered(k, w);
    NotIsComplement(w, PageMask(i, w, k));
  }

  /** For every power-of-two page size the first macro rounds down. */
  lemma {:induction false} MaskDownRounds(i: nat, w: nat, x: nat, k: nat)
    requires k < i <= w && x < Pow2(w)
    ensures MaskDown(i, w, x, k) == AlignDown(x, Pow2(k))
  {
    PageMaskValue(i, w, k);
    HighMask(w, x, k, PageMask(i, w, k));
    PagesAreQuotients(x, Pow2(k));
  }

  /** Absent overflow the second one rounds up. */
  lemma {:induction false} MaskUpRounds(i: nat, w: nat, x: nat, k: nat)
    requires k < i <= w && x + Pow2(k) - 1 < Pow2(w)
    ensures MaskUp(i, w, x, k) == AlignUp(x, Pow2(k))
  {
    var y := x + Pow2(k) - 1;
    assert MaskUp(i, w, x, k) == MaskDown(i, w, y, k) by { MaskUpIsShifted(i, w, x, k); }
    assert MaskDown(i, w, y, k) == AlignDown(y, Pow2(k)) by { MaskDownRounds(i, w, y, k); }
  }

  lemma {:induction false} MaskUpIsShifted(i: nat, w: nat, x: nat, k: nat)
    requires k < i <= w && x + Pow2(k) - 1 < Pow2(w)
    ensures MaskUp(i, w, x, k) == MaskDown(i, w, x + Pow2(k) - 1, k)
  {
    PageMaskComplement(i, w, k);
  }

  /** Rounding up inside the last page of the address space wraps around to zero. */
  lemma {:induction false} MaskUpWraps(i: nat, w: nat, x: nat, k: nat)
    requires k < i <= w
    requires x < Pow2(w) <= x + Pow2(k) - 1
    ensures MaskUp(i, w, x, k) == 0
  {
    PageMaskComplement(i, w, k);
    PowersOrdered(k, w);
    var t := x + Pow2(k) - 1 - Pow2(w);
    MaskDownRounds(i, w, t, k);
    PageUnique(t, 0, Pow2(k));
  }
}
