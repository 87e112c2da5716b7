/**
  The clamped quintic `smoothstep` of the viewer's utility module.

  The source evaluates `t*t*t*(3*t*(2*t - 5) + 10)` on
  `t = clamp((x - left) / (right - left), 0, 1)`; this module models it over
  `real` and proves the bound, saturation and monotonicity facts the palette's
  shoreline blend relies on.
 */
module Smooth {

  /** `f32::clamp(lo, hi)` on a real. */
  function Clamp(x: real, lo: real, hi: real): (r: real)
    requires lo <= hi
    ensures lo <= r <= hi
    ensures lo <= x <= hi ==> r == x
    ensures x <= lo ==> r == lo
    ensures hi <= x ==> r == hi
  {
    if x < lo then lo else if hi < x then hi else x
  }

  /** The polynomial exactly as the source spells it (Horner-like form). */
  function Quintic(t: real): real
  {
    t * t * t * (3.0 * t * (2.0 * t - 5.0) + 10.0)
  }

  /** The textbook form `6t^5 - 15t^4 + 10t^3`, an independent reference. */
  function Smootherstep(t: real): real
  {
    6.0 * t * t * t * t * t - 15.0 * t * t * t * t + 10.0 * t * t * t
  }

  lemma QuinticIsSmootherstep(t: real)
    ensures Quintic(t) == Smootherstep(t)
  {
    var t2 := t * t;
    var t3 := t2 * t;
    assert Quintic(t) == t3 * (6.0 * t2 - 15.0 * t + 10.0);
  }

  /**
    The divided difference of the quintic is a sum of squares:
    P(b) - P(a) = (b - a) * 30 * (A^2 + B^2/12 + C^2/180), where A, B, C
    come from writing P' = 30 q^2 with q(s) = (a + (b-a)s)(1 - a - (b-a)s)
    and integrating q^2 over [0, 1] (a Hilbert-matrix quadratic form).
   */
  lemma QuinticDifference(a: real, b: real)
    ensures var d := b - a;
            var q0 := a * (1.0 - a);
            var q1 := d * (1.0 - 2.0 * a);
            var q2 := -(d * d);
            var sA := q0 + q1 / 2.0 + q2 / 3.0;
            var sB := q1 + q2;
            Smootherstep(b) - Smootherstep(a)
              == d * (30.0 * (sA * sA) + 2.5 * (sB * sB) + (q2 * q2) / 6.0)
  {
  }

  /** The quintic is non-decreasing on the whole real line. */
  lemma QuinticMonotone(a: real, b: real)
    requires a <= b
    ensures Quintic(a) <= Quintic(b)
  {
    QuinticIsSmootherstep(a);
    QuinticIsSmootherstep(b);
    QuinticDifference(a, b);
    var d := b - a;
    var q0 := a * (1.0 - a);
    var q1 := d * (1.0 - 2.0 * a);
    var q2 := -(d * d);
    var sA := q0 + q1 / 2.0 + q2 / 3.0;
    var sB := q1 + q2;
    var s := 30.0 * (sA * sA) + 2.5 * (sB * sB) + (q2 * q2) / 6.0;
    Square(sA);
    Square(sB);
    Square(q2);
    NonNegativeProduct(d, s);
  }

  lemma Square(x: real)
    ensures 0.0 <= x * x
  {
    if x < 0.0 {
      NonNegativeProduct(-x, -x);
    } else {
      NonNegativeProduct(x, x);
    }
  }

  lemma NonNegativeProduct(x: real, y: real)
    requires 0.0 <= x && 0.0 <= y
    ensures 0.0 <= x * y
  {
  }

  /** Dividing by a positive width preserves order. */
  lemma DivideMonotone(a: real, b: real, w: real)
    requires 0.0 < w
    requires a <= b
    ensures a / w <= b / w
  {
    NonNegativeProduct(b - a, 1.0 / w);
    assert b / w - a / w == (b - a) * (1.0 / w);
  }

  /** The ramp coordinate `(x - left) / (right - left)` clamped to [0, 1]. */
  function Ramp(x: real, left: real, right: real): (t: real)
    requires left != right
    ensures 0.0 <= t <= 1.0
    ensures left < right && x <= left ==> t == 0.0
    ensures left < right && right <= x ==> t == 1.0
  {
    var u := (x - left) / (right - left);
    if left < right && x <= left then
      DivideMonotone(x - left, 0.0, right - left);
      Clamp(u, 0.0, 1.0)
    else if left < right && right <= x then
      DivideMonotone(right - left, x - left, right - left);
      Clamp(u, 0.0, 1.0)
    else
      Clamp(u, 0.0, 1.0)
  }

  /**
    `smoothstep(x, left, right)`. The source divides by `right - left`, which
    is a division by zero when the two edges coincide, so they must differ.
   */
  function Smoothstep(x: real, left: real, right: real): (r: real)
    requires left != right
    ensures 0.0 <= r <= 1.0
    ensures var t := Ramp(x, left, right);
            r == 6.0 * t * t * t * t * t - 15.0 * t * t * t * t + 10.0 * t * t * t
    ensures left < right && x <= left ==> r == 0.0
    ensures left < right && right <= x ==> r == 1.0
  {
    var t := Ramp(x, left, right);
    QuinticMonotone(0.0, t);
    QuinticMonotone(t, 1.0);
    QuinticIsSmootherstep(t);
    Quintic(t)
  }

  /** With the edges in increasing order, smoothstep never decreases in `x`. */
  lemma SmoothstepMonotone(x1: real, x2: real, left: real, right: real)
    requires left < right
    requires x1 <= x2
    ensures Smoothstep(x1, left, right) <= Smoothstep(x2, left, right)
  {
    DivideMonotone(x1 - left, x2 - left, right - left);
    QuinticMonotone(Ramp(x1, left, right), Ramp(x2, left, right));
  }
}
