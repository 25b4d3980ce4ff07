/** Points, axis-aligned bounding boxes and the cylinder measurements derived from two
    of them (src/PackAnalyzer.js calculateCylinderProperties). The boxes are the world-space
    boxes that three.js computes for a cell; the distance between their centres is the
    value three.js's distanceTo returns, which is a square root and is therefore taken as
    an input, tied to the boxes by IsCentreDistance where a property needs it. */
module Geometry {

  datatype Vec3 = Vec3(x: real, y: real, z: real)

  datatype Box = Box(min: Vec3, max: Vec3)

  datatype CylinderProperties = CylinderProperties(height: real, radius: real, gap: real)

  function Max(a: real, b: real): real {
    if a >= b then a else b
  }

  function Centre(b: Box): Vec3 {
    Vec3((b.min.x + b.max.x) / 2.0, (b.min.y + b.max.y) / 2.0, (b.min.z + b.max.z) / 2.0)
  }

  function DistanceSquared(a: Vec3, b: Vec3): real {
    (a.x - b.x) * (a.x - b.x) + (a.y - b.y) * (a.y - b.y) + (a.z - b.z) * (a.z - b.z)
  }

  /** d is the Euclidean distance between the centres of the two boxes. */
  predicate IsCentreDistance(box1: Box, box2: Box, d: real) {
    d >= 0.0 && d * d == DistanceSquared(Centre(box1), Centre(box2))
  }

  /** Height and radius come from the first box only: the radius is half the larger of
      its two horizontal extents, and the gap is the centre distance less two radii. */
  function CalculateCylinderProperties(box1: Box, box2: Box, centreDistance: real): (p: CylinderProperties)
    ensures p.radius >= (box1.max.x - box1.min.x) / 2.0
    ensures p.radius >= (box1.max.z - box1.min.z) / 2.0
    ensures p.radius == (box1.max.x - box1.min.x) / 2.0 || p.radius == (box1.max.z - box1.min.z) / 2.0
  {
    var height := box1.max.y - box1.min.y;
    var diameterX := box1.max.x - box1.min.x;
    var diameterZ := box1.max.z - box1.min.z;
    var radius := Max(diameterX, diameterZ) / 2.0;
    CylinderProperties(height, radius, centreDistance - radius * 2.0)
  }

  /** There is only one centre distance for two boxes. */
  lemma CentreDistanceUnique(box1: Box, box2: Box, d1: real, d2: real)
    requires IsCentreDistance(box1, box2, d1) && IsCentreDistance(box1, box2, d2)
    ensures d1 == d2
  {
    if d1 < d2 {
      SquareLess(d1, d2);
    } else if d2 < d1 {
      SquareLess(d2, d1);
    }
  }

  /** Squaring is strictly increasing on the non-negative reals. */
  lemma SquareLess(a: real, b: real)
    requires 0.0 <= a < b
    ensures a * a < b * b
  {
    var e := b - a;
    assert e > 0.0;
    assert b * b == a * a + (a + b) * e;
    assert (a + b) * e > 0.0;
  }

  /** The gap is the clearance between two cylinders of the first cell's radius placed at
      the two centres: adding back one radius on each side gives the centre distance. */
  lemma GapIsClearance(box1: Box, box2: Box, d: real)
    requires IsCentreDistance(box1, box2, d)
    ensures var p := CalculateCylinderProperties(box1, box2, d);
      p.radius >= 0.0 ==>
        (p.gap >= 0.0 <==> 4.0 * p.radius * p.radius <= DistanceSquared(Centre(box1), Centre(box2)))
    ensures var p := CalculateCylinderProperties(box1, box2, d);
      p.radius + p.gap + p.radius == d
  {
    var p := CalculateCylinderProperties(box1, box2, d);
    var r2 := 2.0 * p.radius;
    assert r2 * r2 == 4.0 * p.radius * p.radius;
    if p.radius >= 0.0 {
      if p.gap >= 0.0 {
        if r2 < d { SquareLess(r2, d); }
      } else {
        SquareLess(d, r2);
      }
    }
  }

  function ScaleVec(v: Vec3, k: real): Vec3 {
    Vec3(k * v.x, k * v.y, k * v.z)
  }

  function ScaleBox(b: Box, k: real): Box {
    Box(ScaleVec(b.min, k), ScaleVec(b.max, k))
  }

  function TranslateVec(v: Vec3, t: Vec3): Vec3 {
    Vec3(v.x + t.x, v.y + t.y, v.z + t.z)
  }

  function TranslateBox(b: Box, t: Vec3): Box {
    Box(TranslateVec(b.min, t), TranslateVec(b.max, t))
  }

  lemma DistanceSquaredScales(a: Vec3, b: Vec3, k: real)
    ensures DistanceSquared(ScaleVec(a, k), ScaleVec(b, k)) == k * k * DistanceSquared(a, b)
  {
    assert (k * a.x - k * b.x) * (k * a.x - k * b.x) == k * k * ((a.x - b.x) * (a.x - b.x));
    assert (k * a.y - k * b.y) * (k * a.y - k * b.y) == k * k * ((a.y - b.y) * (a.y - b.y));
    assert (k * a.z - k * b.z) * (k * a.z - k * b.z) == k * k * ((a.z - b.z) * (a.z - b.z));
  }

  lemma CentreScales(b: Box, k: real)
    ensures Centre(ScaleBox(b, k)) == ScaleVec(Centre(b), k)
  {
    assert (k * b.min.x + k * b.max.x) / 2.0 == k * ((b.min.x + b.max.x) / 2.0);
    assert (k * b.min.y + k * b.max.y) / 2.0 == k * ((b.min.y + b.max.y) / 2.0);
    assert (k * b.min.z + k * b.max.z) / 2.0 == k * ((b.min.z + b.max.z) / 2.0);
  }

  lemma MaxScales(a: real, b: real, k: real)
    requires k >= 0.0
    ensures Max(k * a, k * b) == k * Max(a, b)
  {
    if a >= b {
      assert k * a >= k * b by { assert k * a - k * b == k * (a - b); }
    } else if k > 0.0 {
      assert k * a < k * b by { assert k * b - k * a == k * (b - a); }
    }
  }

  /** Scaling both boxes by k >= 0 scales the distance between their centres by k. */
  lemma ScalingScalesDistance(box1: Box, box2: Box, d: real, k: real)
    requires k >= 0.0
    requires IsCentreDistance(box1, box2, d)
    ensures IsCentreDistance(ScaleBox(box1, k), ScaleBox(box2, k), k * d)
  {
    CentreScales(box1, k);
    CentreScales(box2, k);
    DistanceSquaredScales(Centre(box1), Centre(box2), k);
    assert (k * d) * (k * d) == k * k * (d * d);
  }

  /** The factor loadModel applies to the loaded model on every axis. */
  const ModelScale: real := 2.0

  /** Scaling the first box by the model's factor scales its height and radius alike. */
  lemma ModelScaleScalesRadius(box1: Box, box2: Box, d: real)
    ensures var p := CalculateCylinderProperties(box1, box2, d);
      var q := CalculateCylinderProperties(ScaleBox(box1, ModelScale), ScaleBox(box2, ModelScale), ModelScale * d);
      q.height == ModelScale * p.height && q.radius == ModelScale * p.radius
  {
    var dx, dz := box1.max.x - box1.min.x, box1.max.z - box1.min.z;
    MaxScales(dx, dz, ModelScale);
  }

  /** Scaling both boxes by the model's factor scales the centre distance, height, radius
      and gap by that factor: the measurements of the scaled model are twice those of the
      file's coordinates. */
  lemma ModelScaleScalesProperties(box1: Box, box2: Box, d: real)
    requires IsCentreDistance(box1, box2, d)
    ensures IsCentreDistance(ScaleBox(box1, ModelScale), ScaleBox(box2, ModelScale), ModelScale * d)
    ensures var p := CalculateCylinderProperties(box1, box2, d);
      CalculateCylinderProperties(ScaleBox(box1, ModelScale), ScaleBox(box2, ModelScale), ModelScale * d) ==
      CylinderProperties(ModelScale * p.height, ModelScale * p.radius, ModelScale * p.gap)
  {
    ScalingScalesDistance(box1, box2, d, ModelScale);
    ModelScaleScalesRadius(box1, box2, d);
  }

  /** Moving both boxes by the same offset changes none of the measurements. */
  lemma TranslationKeepsProperties(box1: Box, box2: Box, d: real, t: Vec3)
    requires IsCentreDistance(box1, box2, d)
    ensures IsCentreDistance(TranslateBox(box1, t), TranslateBox(box2, t), d)
    ensures CalculateCylinderProperties(TranslateBox(box1, t), TranslateBox(box2, t), d) ==
            CalculateCylinderProperties(box1, box2, d)
  {
    var c1, c2 := Centre(TranslateBox(box1, t)), Centre(TranslateBox(box2, t));
    assert c1.x - c2.x == Centre(box1).x - Centre(box2).x;
    assert c1.y - c2.y == Centre(box1).y - Centre(box2).y;
    assert c1.z - c2.z == Centre(box1).z - Centre(box2).z;
  }

  /** A cell with box (0,0,0)-(2,4,2) and a second cell whose centre lies 3 units along x
      from the first one's: height 4, radius 1, gap 1. */
  lemma TwoCellsExample(box2: Box, d: real)
    requires Centre(box2) == Vec3(4.0, 2.0, 1.0)
    requires IsCentreDistance(Box(Vec3(0.0, 0.0, 0.0), Vec3(2.0, 4.0, 2.0)), box2, d)
    ensures CalculateCylinderProperties(Box(Vec3(0.0, 0.0, 0.0), Vec3(2.0, 4.0, 2.0)), box2, d) ==
            CylinderProperties(4.0, 1.0, 1.0)
  {
    var box1 := Box(Vec3(0.0, 0.0, 0.0), Vec3(2.0, 4.0, 2.0));
    assert IsCentreDistance(box1, box2, 3.0);
    CentreDistanceUnique(box1, box2, d, 3.0);
  }
}
