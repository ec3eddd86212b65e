/** The ribbon geometry of `createLightTrail` (components/Scene.tsx): two vertices and two
  * colour entries per curve sample, and an index buffer of two triangles per segment. */
module LightTrail {
  import opened Geometry

  /** Number of curve samples. */
  const Resolution: nat := 2500

  /** What the curve gives at one sample: the point, the unit normal `up × tangent` and the
    * oscillating half-width. Curve sampling and `Math.sin` are outside the model. */
  datatype Sample = Sample(point: Vec3, normal: Vec3, width: real)

  datatype Rgb = Rgb(r: real, g: real, b: real)

  /** `#fff000` and `#ffffff` as fractions of full intensity. */
  const ColorStart: Rgb := Rgb(1.0, 240.0 / 255.0, 0.0)
  const ColorEnd: Rgb := Rgb(1.0, 1.0, 1.0)

  /** `p + normal * side`: one edge vertex of the ribbon. */
  function Edge(s: Sample, side: real): Vec3 {
    Vec3(s.point.x + s.normal.x * side, s.point.y + s.normal.y * side, s.point.z + s.normal.z * side)
  }

  /** The six coordinates one sample pushes: `v1` then `v2`. */
  function SampleCoords(s: Sample): seq<real> {
    var v1, v2 := Edge(s, s.width), Edge(s, -s.width);
    [v1.x, v1.y, v1.z, v2.x, v2.y, v2.z]
  }

  /** The colour of sample `i`: `start.lerp(end, i / res)`. */
  function SampleColor(i: nat, res: nat): Rgb
    requires i < res
  {
    var t := (i as real) / (res as real);
    Rgb(Lerp(ColorStart.r, ColorEnd.r, t), Lerp(ColorStart.g, ColorEnd.g, t), Lerp(ColorStart.b, ColorEnd.b, t))
  }

  /** The six colour entries one sample pushes: the same colour for both of its vertices. */
  function ColorCoords(c: Rgb): seq<real> {
    [c.r, c.g, c.b, c.r, c.g, c.b]
  }

  /** The first loop of `createLightTrail`: fill `vertices` and `trailColors`. */
  method RibbonVertices(res: nat, sample: nat -> Sample) returns (vertices: seq<real>, colors: seq<real>)
    ensures |vertices| == 6 * res && |colors| == 6 * res
    ensures forall i, k :: 0 <= i < res && 0 <= k < 6 ==> vertices[6 * i + k] == SampleCoords(sample(i))[k]
    ensures forall i, k :: 0 <= i < res && 0 <= k < 6 ==> colors[6 * i + k] == ColorCoords(SampleColor(i, res))[k]
  {
    vertices, colors := [], [];
    var i := 0;
    while i < res
      invariant 0 <= i <= res
      invariant |vertices| == 6 * i && |colors| == 6 * i
      invariant forall j, k :: 0 <= j < i && 0 <= k < 6 ==> vertices[6 * j + k] == SampleCoords(sample(j))[k]
      invariant forall j, k :: 0 <= j < i && 0 <= k < 6 ==> colors[6 * j + k] == ColorCoords(SampleColor(j, res))[k]
    {
      var s := sample(i);
      var v1, v2 := Edge(s, s.width), Edge(s, -s.width);
      vertices := vertices + [v1.x, v1.y, v1.z];
      vertices := vertices + [v2.x, v2.y, v2.z];
      var col := SampleColor(i, res);
      colors := colors + [col.r, col.g, col.b];
      colors := colors + [col.r, col.g, col.b];
      i := i + 1;
    }
  }

  /** The two vertices of a sample lie symmetrically about the curve point, `width` along
    * the normal on either side. */
  lemma EdgesStraddlePoint(s: Sample)
    ensures var c := SampleCoords(s);
            && (c[0] + c[3]) / 2.0 == s.point.x
            && (c[1] + c[4]) / 2.0 == s.point.y
            && (c[2] + c[5]) / 2.0 == s.point.z
  {
  }

  /** Every colour entry lies between the start and end colours, and both vertices of a
    * sample share one colour. */
  lemma ColorsBetweenEnds(i: nat, res: nat)
    requires i < res
    ensures var c := SampleColor(i, res);
            && c.r == 1.0
            && 240.0 / 255.0 <= c.g < 1.0
            && 0.0 <= c.b < 1.0
    ensures ColorCoords(SampleColor(i, res))[..3] == ColorCoords(SampleColor(i, res))[3..]
  {
    var t := (i as real) / (res as real);
    assert 0.0 <= t < 1.0;
  }

  /** The number of ribbon segments: `res - 1`, none for an empty ribbon. */
  function Segments(res: nat): nat {
    if res == 0 then 0 else res - 1
  }

  /** Segment `i` emits the triangles (2i, 2i+1, 2i+2) and (2i+1, 2i+3, 2i+2). */
  function SegmentIndices(i: nat): seq<nat> {
    [2 * i, 2 * i + 1, 2 * i + 2, 2 * i + 1, 2 * i + 3, 2 * i + 2]
  }

  /** What the index loop produces: six entries per segment, segment by segment. */
  ghost predicate IsRibbonIndex(indices: seq<nat>, res: nat) {
    && |indices| == 6 * Segments(res)
    && forall i, k :: 0 <= i < Segments(res) && 0 <= k < 6 ==> indices[6 * i + k] == SegmentIndices(i)[k]
  }

  /** The second loop of `createLightTrail`: the index buffer. */
  method RibbonIndices(res: nat) returns (indices: seq<nat>)
    ensures IsRibbonIndex(indices, res)
  {
    indices := [];
    var i := 0;
    while i < Segments(res)
      invariant 0 <= i <= Segments(res)
      invariant |indices| == 6 * i
      invariant forall j, k :: 0 <= j < i && 0 <= k < 6 ==> indices[6 * j + k] == SegmentIndices(j)[k]
    {
      var a := i * 2;
      var b := i * 2 + 1;
      var c := (i + 1) * 2;
      var d := (i + 1) * 2 + 1;
      indices := indices + [a, b, c];
      indices := indices + [b, d, c];
      i := i + 1;
    }
  }

  /** Every index names one of the `2 * res` vertices the first loop emits. */
  lemma IndicesInRange(indices: seq<nat>, res: nat, j: nat)
    requires IsRibbonIndex(indices, res)
    requires j < |indices|
    ensures indices[j] < 2 * res
  {
    var i, k := j / 6, j % 6;
    assert j == 6 * i + k;
    assert indices[j] == SegmentIndices(i)[k];
  }

  /** No triangle is degenerate: each names three different vertices. */
  lemma TrianglesProper(indices: seq<nat>, res: nat, t: nat)
    requires IsRibbonIndex(indices, res)
    requires 3 * t + 2 < |indices|
    ensures indices[3 * t] != indices[3 * t + 1]
    ensures indices[3 * t + 1] != indices[3 * t + 2]
    ensures indices[3 * t] != indices[3 * t + 2]
  {
    var i, h := t / 2, t % 2;
    assert 3 * t == 6 * i + 3 * h;
    assert indices[3 * t] == SegmentIndices(i)[3 * h];
    assert indices[3 * t + 1] == SegmentIndices(i)[3 * h + 1];
    assert indices[3 * t + 2] == SegmentIndices(i)[3 * h + 2];
  }

  /** With at least two samples the triangles cover the whole strip: every vertex is used. */
  lemma EveryVertexUsed(indices: seq<nat>, res: nat, v: nat)
    requires IsRibbonIndex(indices, res)
    requires res >= 2 && v < 2 * res
    ensures exists j :: 0 <= j < |indices| && indices[j] == v
  {
    var i := if v / 2 < res - 1 then v / 2 else res - 2;
    var k := if v == 2 * i then 0 else if v == 2 * i + 1 then 1 else if v == 2 * i + 2 then 2 else 4;
    assert indices[6 * i + k] == SegmentIndices(i)[k];
  }
}
