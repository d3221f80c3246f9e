/** The float-to-integer conversions of C++: the cast truncates toward zero, `round` and `lround`
    go to the nearest integer with halves away from zero. */
module Rounding {

  function Trunc(x: real): (t: int)
    ensures 0.0 <= x ==> 0 <= t && x - 1.0 < t as real <= x
    ensures x < 0.0 ==> t <= 0 && x <= t as real < x + 1.0
  {
    if x >= 0.0 then x.Floor else -((-x).Floor)
  }

  function Round(x: real): (t: int)
    ensures x - 0.5 <= t as real <= x + 0.5
    ensures t as real == x - 0.5 ==> x < 0.0
    ensures t as real == x + 0.5 ==> x >= 0.0
  {
    if x >= 0.0 then (x + 0.5).Floor else -((-x + 0.5).Floor)
  }

  lemma {:induction false} TruncMonotone(x: real, y: real)
    requires x <= y
    ensures Trunc(x) <= Trunc(y)
  {
    assert (Trunc(x) - Trunc(y)) as real < 1.0;
  }

  lemma {:induction false} RoundMonotone(x: real, y: real)
    requires x <= y
    ensures Round(x) <= Round(y)
  {
    assert (Round(x) - Round(y)) as real < 1.0;
  }

  /** An integer start plus a truncated length is the truncated end. */
  lemma {:induction false} TruncShift(k: nat, x: real)
    requires 0.0 <= x
    ensures Trunc(k as real + x) == k + Trunc(x)
  {
    var t := Trunc(k as real + x);
    assert (t - k - Trunc(x)) as real < 1.0;
    assert (t - k - Trunc(x)) as real > -1.0;
  }

  lemma {:induction false} TruncUnique(x: real, t: int)
    requires 0.0 <= x && x - 1.0 < t as real <= x
    ensures Trunc(x) == t
  {
    assert (t - Trunc(x)) as real < 1.0;
    assert (t - Trunc(x)) as real > -1.0;
  }

  lemma {:induction false} RoundUnique(x: real, t: int)
    requires x - 0.5 < t as real < x + 0.5
    ensures Round(x) == t
  {
    assert (t - Round(x)) as real < 1.0;
    assert (t - Round(x)) as real > -1.0;
  }
}
