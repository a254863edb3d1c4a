/** The pure numeric helpers of `MeshMorpher`: the easing cubic `smooth`, the
    stagger parabola `roundStep`, the per-vertex staggered blend position that
    combines them, and the linear-congruential `random` with the rescaling its
    (commented-out) caller applies to build the vertex offset table.
    Numbers are mathematical reals; IEEE-754 rounding is not modelled. */
module Easing {

  /** `smooth(x) = -6x^3 + 9x^2 - 2x`, with `Math.pow` written out. It moves
      `x` by `-3x(2x - 1)(x - 1)`, so it fixes 0, 1/2 and 1. */
  function Smooth(x: real): (r: real)
    ensures r == x - 3.0 * x * (2.0 * x - 1.0) * (x - 1.0)
  {
    -6.0 * (x * x * x) + 9.0 * (x * x) - 2.0 * x
  }

  /** `roundStep(x) = 1 - (1 - 2x)^2`, with `Math.pow` written out: the
      parabola `4x(1 - x)` through (0, 0), (1/2, 1) and (1, 0). */
  function RoundStep(x: real): (r: real)
    ensures r == 4.0 * x * (1.0 - x)
  {
    1.0 - (1.0 - 2.0 * x) * (1.0 - 2.0 * x)
  }

  /** The first value `updateGeometry` computes for a vertex:
      `percent + roundStep(percent) * offset`, a displacement of
      `4 percent (1 - percent) offset` that vanishes at both ends. */
  function Staggered(percent: real, offset: real): (r: real)
    ensures r - percent == 4.0 * percent * (1.0 - percent) * offset
  {
    percent + RoundStep(percent) * offset
  }

  const Multiplier: int := 1103515245
  const Increment: int := 12345
  const Modulus: int := 65536

  /** `random(seed) = (1103515245 * seed + 12345) % 65536 / 65536` for a
      non-negative integer seed, where JavaScript's `%` and Dafny's agree. */
  function Random(seed: nat): (r: real)
    ensures 0.0 <= r < 1.0
    ensures (r * Modulus as real).Floor as real == r * Modulus as real
  {
    ((Multiplier * seed + Increment) % Modulus) as real / Modulus as real
  }

  /** The per-vertex offset `random(seed) * 0.1 - 0.05`. */
  function VertexOffset(seed: nat): (o: real)
    ensures -0.05 <= o < 0.05
  {
    Random(seed) * 0.1 - 0.05
  }

  lemma SmoothEndpoints()
    ensures Smooth(0.0) == 0.0 && Smooth(1.0) == 1.0 && Smooth(0.5) == 0.5
  {
  }

  /** The cubic is point-symmetric about (1/2, 1/2). */
  lemma SmoothPointSymmetric(x: real)
    ensures Smooth(1.0 - x) == 1.0 - Smooth(x)
  {
  }

  /** The cubic leaves [0, 1] inside the unit interval: it dips below 0 just
      after 0 and rises above 1 just before 1. */
  lemma SmoothOvershoots()
    ensures Smooth(0.25) < 0.0 && Smooth(0.75) > 1.0
  {
  }

  lemma RoundStepEndpoints()
    ensures RoundStep(0.0) == 0.0 && RoundStep(1.0) == 0.0 && RoundStep(0.5) == 1.0
  {
  }

  /** The parabola never exceeds 1, the value it takes at 1/2. */
  lemma RoundStepAtMostOne(x: real)
    ensures RoundStep(x) <= 1.0 == RoundStep(0.5)
  {
  }

  lemma MulNonNegative(a: real, b: real)
    requires a >= 0.0 && b >= 0.0
    ensures a * b >= 0.0
  {
  }

  lemma MulAtMost(a: real, b: real)
    requires 0.0 <= a <= 1.0 && 0.0 <= b
    ensures a * b <= b
  {
  }

  /** The parabola is symmetric about 1/2 and non-negative on [0, 1]. */
  lemma RoundStepShape(x: real)
    ensures RoundStep(1.0 - x) == RoundStep(x)
    ensures 0.0 <= x <= 1.0 ==> 0.0 <= RoundStep(x)
  {
    if 0.0 <= x <= 1.0 {
      MulNonNegative(x, 1.0 - x);
    }
  }

  /** The stagger vanishes at both ends of a transition, whatever the offset. */
  lemma StaggeredEndpoints(offset: real)
    ensures Staggered(0.0, offset) == 0.0 && Staggered(1.0, offset) == 1.0
  {
  }

  /** With an offset in the range the offset table uses, the staggered
      position of a percent in [0, 1] stays in [0, 1]. */
  lemma StaggeredStaysInUnit(percent: real, offset: real)
    requires 0.0 <= percent <= 1.0
    requires -0.05 <= offset < 0.05
    ensures 0.0 <= Staggered(percent, offset) <= 1.0
  {
    // With p = percent and q = 1 - p, Staggered = p + 4pq * offset,
    // which is both p * (1 + 4q * offset) and 1 - q * (1 - 4p * offset).
    var p, q := percent, 1.0 - percent;
    var s, t := 1.0 + 4.0 * q * offset, 1.0 - 4.0 * p * offset;
    assert Staggered(percent, offset) == p * s;
    assert Staggered(percent, offset) == 1.0 - q * t;
    var magnitude := if offset < 0.0 then -offset else offset;
    MulAtMost(q, magnitude);
    MulAtMost(p, magnitude);
    MulNonNegative(p, s);
    MulNonNegative(q, t);
  }

  /** Adding a multiple of the modulus does not change the remainder. */
  lemma ModShift(a: int, k: nat)
    ensures (a + k * Modulus) % Modulus == a % Modulus
  {
  }

  /** `random` has period 65536 in its seed. */
  lemma RandomPeriodic(seed: nat, k: nat)
    ensures Random(seed + k * Modulus) == Random(seed)
  {
    var a := Multiplier * seed + Increment;
    assert Multiplier * (seed + k * Modulus) + Increment == a + (Multiplier * k) * Modulus;
    ModShift(a, Multiplier * k);
  }
}
