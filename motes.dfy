/** The ambient motes of components/Scene.tsx: their seeding and the per-frame drift with
  * its bounce rule, on real numbers (the source stores them in a `Float32Array`). */
module Motes {
  import opened Geometry

  /** Beyond this distance from the origin on an axis a mote is sent back. */
  const Bound: real := 120.0
  /** The factor the coordinate is multiplied by when it is sent back. */
  const Damping: real := -0.99

  /** `(Math.random() - 0.5) * 180`: a starting coordinate. */
  function SeedPosition(u: real): (p: real)
    requires 0.0 <= u < 1.0
    ensures -90.0 <= p < 90.0
  {
    (u - 0.5) * 180.0
  }

  /** `(Math.random() - 0.5) * 0.04`: a velocity coordinate. */
  function SeedVelocity(u: real): (v: real)
    requires 0.0 <= u < 1.0
    ensures -0.02 <= v < 0.02
  {
    (u - 0.5) * 0.04
  }

  /** One frame on one axis: add the velocity, then send back a coordinate beyond the bound. */
  function Drift(p: real, v: real): real {
    var q := p + v;
    if Abs(q) > Bound then q * Damping else q
  }

  /** A coordinate that leaves the box changes sign and lands strictly nearer the centre. */
  lemma BounceReverses(p: real, v: real)
    requires Abs(p + v) > Bound
    ensures (p + v > 0.0) <==> Drift(p, v) < 0.0
    ensures Abs(Drift(p, v)) < Abs(p + v)
  {
  }

  /** Inside the box with a seeded speed, a mote is inside the box after the frame. */
  lemma DriftStaysInBox(p: real, v: real)
    requires Abs(p) <= Bound && Abs(v) <= 0.02
    ensures Abs(Drift(p, v)) <= Bound
  {
  }

  /** The coordinate after `n` frames. */
  function DriftFrames(p: real, v: real, n: nat): real
    decreases n
  {
    if n == 0 then p else DriftFrames(Drift(p, v), v, n - 1)
  }

  /** A seeded mote never leaves the box, however many frames pass. */
  lemma {:induction false} SeededMoteStaysInBox(u: real, w: real, n: nat)
    requires 0.0 <= u < 1.0 && 0.0 <= w < 1.0
    ensures Abs(DriftFrames(SeedPosition(u), SeedVelocity(w), n)) <= Bound
  {
    StaysInBox(SeedPosition(u), SeedVelocity(w), n);
  }

  lemma {:induction false} StaysInBox(p: real, v: real, n: nat)
    requires Abs(p) <= Bound && Abs(v) <= 0.02
    ensures Abs(DriftFrames(p, v, n)) <= Bound
    decreases n
  {
    if n > 0 {
      DriftStaysInBox(p, v);
      StaysInBox(Drift(p, v), v, n - 1);
    }
  }

  /** The mote loop of `animate`, in place on the position buffer: every coordinate of every
    * mote drifts by its own velocity. */
  method StepMotes(positions: array<real>, velocities: array<real>, count: nat)
    requires positions.Length == 3 * count && velocities.Length == 3 * count
    requires positions != velocities
    modifies positions
    ensures forall j :: 0 <= j < positions.Length ==> positions[j] == Drift(old(positions[j]), velocities[j])
  {
    var i := 0;
    while i < count
      invariant 0 <= i <= count
      invariant forall j :: 0 <= j < 3 * i ==> positions[j] == Drift(old(positions[j]), velocities[j])
      invariant forall j :: 3 * i <= j < positions.Length ==> positions[j] == old(positions[j])
    {
      positions[i * 3] := positions[i * 3] + velocities[i * 3];
      positions[i * 3 + 1] := positions[i * 3 + 1] + velocities[i * 3 + 1];
      positions[i * 3 + 2] := positions[i * 3 + 2] + velocities[i * 3 + 2];
      if Abs(positions[i * 3]) > Bound { positions[i * 3] := positions[i * 3] * Damping; }
      if Abs(positions[i * 3 + 1]) > Bound { positions[i * 3 + 1] := positions[i * 3 + 1] * Damping; }
      if Abs(positions[i * 3 + 2]) > Bound { positions[i * 3 + 2] := positions[i * 3 + 2] * Damping; }
      i := i + 1;
    }
  }
}
