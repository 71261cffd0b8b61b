/** Math.abs and the Math.max(0, Math.min(hi, v)) clamp on exact reals. */
module Numeric {

  function Abs(v: real): (a: real)
    ensures a >= 0.0 && (a == v || a == -v)
  {
    if v < 0.0 then -v else v
  }

  /** `Math.max(0, Math.min(hi, v))`: v pulled into [0, hi]. */
  function ClampTo(hi: real, v: real): (c: real)
    requires hi >= 0.0
    ensures 0.0 <= c <= hi
    ensures 0.0 <= v <= hi ==> c == v
    ensures v < 0.0 ==> c == 0.0
    ensures v > hi ==> c == hi
  {
    var lower := if hi < v then hi else v;
    if 0.0 > lower then 0.0 else lower
  }

  /** Clamping twice is clamping once. */
  lemma ClampIdempotent(hi: real, v: real)
    requires hi >= 0.0
    ensures ClampTo(hi, ClampTo(hi, v)) == ClampTo(hi, v)
  {
  }

  /** The clamp never moves a value further from any point of [0, hi]. */
  lemma ClampIsNearest(hi: real, v: real, w: real)
    requires hi >= 0.0 && 0.0 <= w <= hi
    ensures Abs(ClampTo(hi, v) - w) <= Abs(v - w)
  {
  }
}
