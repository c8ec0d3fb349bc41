/** The configuration of the explicit scheme and its stability gate
    (main.c:11-13, 25, 48-52, 203). */
module Stability {

  /** Thermal diffusivity `alpha`, node spacing `h` (the same along both
      axes) and time step `dt`. */
  datatype Params = Params(alpha: real, h: real, dt: real) {
    predicate Valid() {
      alpha > 0.0 && h > 0.0 && dt > 0.0
    }
  }

  /** The gate of main.c:48, `dt < h^2 / (4 alpha)`: strict, so the equal
      case fails. Cleared of its division, it reads `4 alpha dt < h^2`. */
  function IsStable(p: Params): (stable: bool)
    requires p.Valid()
    ensures stable <==> 4.0 * p.alpha * p.dt < p.h * p.h
  {
    var bound := p.h * p.h / (4.0 * p.alpha);
    assert bound * (4.0 * p.alpha) == p.h * p.h;
    p.dt < bound
  }

  /** The mesh ratio `alpha dt / h^2`, the weight one neighbour carries in
      an update. */
  function Rate(p: Params): (r: real)
    requires p.Valid()
    ensures r > 0.0
    ensures r * (p.h * p.h) == p.alpha * p.dt
  {
    p.alpha * p.dt / (p.h * p.h)
  }

  /** `coefficient` of main.c:203, the share of its own value a cell keeps. */
  function Retention(p: Params): (c: real)
    requires p.Valid()
    ensures c == 1.0 - 4.0 * Rate(p)
  {
    QuotientOf(4.0 * p.dt * p.alpha, p.h * p.h, 4.0 * Rate(p));
    1.0 - (4.0 * p.dt * p.alpha / (p.h * p.h))
  }

  /** Passing the gate is the same as each neighbour weighing less than a
      quarter, and the same as every cell keeping a positive share of its
      own value. */
  lemma {:induction false} StableIffPositiveRetention(p: Params)
    requires p.Valid()
    ensures IsStable(p) <==> Rate(p) < 0.25
    ensures IsStable(p) <==> Retention(p) > 0.0
  {
    var r, hh := Rate(p), p.h * p.h;
    assert r * hh == p.alpha * p.dt;
    assert 4.0 * p.alpha * p.dt == 4.0 * r * hh;
    if r < 0.25 {
      ScaleStrict(4.0 * r, 1.0, hh);
    } else {
      ScaleStrict(1.0, 4.0 * r, hh);
    }
  }

  /** `z` is the quotient `x / y` when `z * y == x`. */
  lemma {:induction false} QuotientOf(x: real, y: real, z: real)
    requires y != 0.0 && z * y == x
    ensures x / y == z
  {
  }

  /** Multiplying by a positive factor keeps a strict order, and a weak one. */
  lemma {:induction false} ScaleStrict(x: real, y: real, f: real)
    requires f > 0.0
    ensures x < y ==> x * f < y * f
    ensures x <= y ==> x * f <= y * f
  {
    if x <= y {
      assert (y - x) * f >= 0.0;
    }
    if x < y {
      assert (y - x) * f > 0.0;
    }
  }

  /** The equal case of the gate fails: `main` returns 1 for it. */
  lemma {:induction false} EqualCaseIsUnstable(p: Params)
    requires p.Valid()
    requires p.dt == p.h * p.h / (4.0 * p.alpha)
    ensures !IsStable(p)
  {
  }
}
