/** `createStarShape` (components/Scene.tsx): the outline of the five-pointed topper star,
  * alternating between the outer and the inner radius at steps of π/5. */
module StarTopper {
  import opened Geometry

  const Spikes: nat := 5

  datatype Point2 = Point2(x: real, y: real)

  /** The angle of the `k`-th `lineTo`: starts straight down and turns by π/5 each time. */
  function StarAngle(k: nat): real {
    -Pi / 2.0 + (k as real) * (Pi / Spikes as real)
  }

  /** Even vertices are tips on the outer radius, odd ones notches on the inner radius. */
  function VertexRadius(radius: real, innerRadius: real, k: nat): real {
    if k % 2 == 0 then radius else innerRadius
  }

  function Polar(trig: Trig, r: real, a: real): Point2 {
    Point2(trig.cos(a) * r, trig.sin(a) * r)
  }

  /** The `k`-th `lineTo` point. */
  function StarVertex(radius: real, innerRadius: real, trig: Trig, k: nat): Point2 {
    Polar(trig, VertexRadius(radius, innerRadius, k), StarAngle(k))
  }

  /** The path: the `moveTo` point, then the ten `lineTo` points. */
  method StarShape(radius: real, innerRadius: real, trig: Trig) returns (path: seq<Point2>)
    ensures |path| == 2 * Spikes + 1
    ensures path[0] == Point2(0.0, -radius)
    ensures forall k :: 0 <= k < 2 * Spikes ==>
              path[k + 1] == StarVertex(radius, innerRadius, trig, k)
  {
    var step := Pi / Spikes as real;
    var rotation := -Pi / 2.0;
    path := [Point2(0.0, -radius)];
    var i := 0;
    while i < Spikes
      invariant 0 <= i <= Spikes
      invariant |path| == 2 * i + 1
      invariant path[0] == Point2(0.0, -radius)
      invariant rotation == StarAngle(2 * i)
      invariant forall k :: 0 <= k < 2 * i ==>
                  path[k + 1] == StarVertex(radius, innerRadius, trig, k)
    {
      ghost var prev := path;
      assert VertexRadius(radius, innerRadius, 2 * i) == radius;
      assert VertexRadius(radius, innerRadius, 2 * i + 1) == innerRadius;
      path := path + [Point2(trig.cos(rotation) * radius, trig.sin(rotation) * radius)];
      rotation := rotation + step;
      assert rotation == StarAngle(2 * i + 1);
      assert path[2 * i + 1] == StarVertex(radius, innerRadius, trig, 2 * i);
      path := path + [Point2(trig.cos(rotation) * innerRadius, trig.sin(rotation) * innerRadius)];
      rotation := rotation + step;
      assert path[2 * i + 2] == StarVertex(radius, innerRadius, trig, 2 * i + 1);
      assert rotation == StarAngle(2 * i + 2);
      i := i + 1;
    }
  }

  /** With a true cosine and sine, tips lie on the outer circle and notches on the inner. */
  lemma VerticesOnCircles(radius: real, innerRadius: real, trig: Trig, k: nat)
    requires UnitCircle(trig)
    ensures var p := StarVertex(radius, innerRadius, trig, k);
            p.x * p.x + p.y * p.y == VertexRadius(radius, innerRadius, k) * VertexRadius(radius, innerRadius, k)
  {
    var a, r := StarAngle(k), VertexRadius(radius, innerRadius, k);
    var c, s := trig.cos(a), trig.sin(a);
    assert c * c + s * s == 1.0;
    calc {
      (c * r) * (c * r) + (s * r) * (s * r);
      (c * c + s * s) * (r * r);
      r * r;
    }
  }
}
