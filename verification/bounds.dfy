/** `GenericUtil.BuildBoundingBoxForVertex` (`Utils/GraphicsUtil.cs`): the
    axis-aligned box of a vertex array, a component-wise min/max fold that
    starts from the `float` sentinels. The model takes the identity bone
    transform, the only one the engine passes. */
module Bounds {
  import opened Vectors
  import opened Mesh

  datatype Axis = X | Y | Z

  /** One coordinate of a point. */
  function Coord(p: Vec3, a: Axis): real {
    match a
    case X => p.x
    case Y => p.y
    case Z => p.z
  }

  /** `Vector3.Min` and `Vector3.Max` act axis by axis. */
  lemma MinMaxAxis(p: Vec3, q: Vec3, a: Axis)
    ensures Coord(Min3(p, q), a) == (if Coord(p, a) <= Coord(q, a) then Coord(p, a) else Coord(q, a))
    ensures Coord(Max3(p, q), a) == (if Coord(p, a) >= Coord(q, a) then Coord(p, a) else Coord(q, a))
  {
  }

  /** The starting box: `meshMin` at `float.MaxValue` and `meshMax` at
      `float.MinValue` on every axis. */
  const Start: Box := Box(Vec3(FloatMax, FloatMax, FloatMax), Vec3(FloatMin, FloatMin, FloatMin))

  /** A point a single-precision float can hold: within the sentinels. */
  predicate InFloatRange(p: Vec3) {
    FloatMin <= p.x <= FloatMax && FloatMin <= p.y <= FloatMax && FloatMin <= p.z <= FloatMax
  }

  /** The point lies in the closed box. */
  predicate Contains(b: Box, p: Vec3) {
    LessEq(b.min, p) && LessEq(p, b.max)
  }

  /** On axis `a`, the lower bound is the coordinate of one of the vertices. */
  predicate LowAttained(b: Box, vs: seq<Vertex>, a: Axis) {
    exists i | 0 <= i < |vs| :: Coord(vs[i].position, a) == Coord(b.min, a)
  }

  /** On axis `a`, the upper bound is the coordinate of one of the vertices. */
  predicate HighAttained(b: Box, vs: seq<Vertex>, a: Axis) {
    exists i | 0 <= i < |vs| :: Coord(vs[i].position, a) == Coord(b.max, a)
  }

  /** The vertex loop, returning `new BoundingBox(meshMin, meshMax)` after
      the identity transform. Every vertex lies in the box; each bound is
      either still its sentinel or the coordinate of some vertex, so for
      vertices in float range and a non-empty array each bound is attained
      and the box is the tight min/max box; an empty array gives the
      inverted sentinel box. */
  method BuildBoundingBoxForVertex(vertexData: seq<Vertex>) returns (box: Box)
    ensures forall i | 0 <= i < |vertexData| :: Contains(box, vertexData[i].position)
    ensures LessEq(box.min, Start.min) && LessEq(Start.max, box.max)
    ensures forall a: Axis :: Coord(box.min, a) == FloatMax || LowAttained(box, vertexData, a)
    ensures forall a: Axis :: Coord(box.max, a) == FloatMin || HighAttained(box, vertexData, a)
    ensures |vertexData| == 0 ==> box == Start && forall a: Axis :: Coord(box.min, a) > Coord(box.max, a)
    ensures |vertexData| > 0 && (forall i | 0 <= i < |vertexData| :: InFloatRange(vertexData[i].position)) ==>
              LessEq(box.min, box.max) &&
              forall a: Axis :: LowAttained(box, vertexData, a) && HighAttained(box, vertexData, a)
  {
    var meshMin := Start.min;
    var meshMax := Start.max;
    var i := 0;
    while i < |vertexData|
      invariant 0 <= i <= |vertexData|
      invariant forall j | 0 <= j < i :: Contains(Box(meshMin, meshMax), vertexData[j].position)
      invariant LessEq(meshMin, Start.min) && LessEq(Start.max, meshMax)
      invariant forall a: Axis :: Coord(meshMin, a) == FloatMax || LowAttained(Box(meshMin, meshMax), vertexData[..i], a)
      invariant forall a: Axis :: Coord(meshMax, a) == FloatMin || HighAttained(Box(meshMin, meshMax), vertexData[..i], a)
      invariant i == 0 ==> meshMin == Start.min && meshMax == Start.max
      invariant i > 0 ==> forall a: Axis :: Coord(meshMin, a) <= Coord(vertexData[0].position, a) <= Coord(meshMax, a)
    {
      var p := vertexData[i].position;
      var prefix := vertexData[..i + 1];
      var oldMin, oldMax := meshMin, meshMax;
      meshMin := Min3(meshMin, p);
      meshMax := Max3(meshMax, p);
      forall a: Axis
        ensures Coord(meshMin, a) == FloatMax || LowAttained(Box(meshMin, meshMax), prefix, a)
        ensures Coord(meshMax, a) == FloatMin || HighAttained(Box(meshMin, meshMax), prefix, a)
      {
        MinMaxAxis(oldMin, p, a);
        MinMaxAxis(oldMax, p, a);
        assert prefix[i].position == p;
        if Coord(meshMin, a) != FloatMax {
          if Coord(meshMin, a) == Coord(p, a) {
            assert Coord(prefix[i].position, a) == Coord(meshMin, a);
          } else {
            var j :| 0 <= j < i && Coord(vertexData[..i][j].position, a) == Coord(oldMin, a);
            assert prefix[j] == vertexData[..i][j];
          }
        }
        if Coord(meshMax, a) != FloatMin {
          if Coord(meshMax, a) == Coord(p, a) {
            assert Coord(prefix[i].position, a) == Coord(meshMax, a);
          } else {
            var j :| 0 <= j < i && Coord(vertexData[..i][j].position, a) == Coord(oldMax, a);
            assert prefix[j] == vertexData[..i][j];
          }
        }
      }
      forall a: Axis ensures i > 0 ==> Coord(meshMin, a) <= Coord(vertexData[0].position, a) <= Coord(meshMax, a) {
        MinMaxAxis(oldMin, p, a);
        MinMaxAxis(oldMax, p, a);
      }
      i := i + 1;
    }
    assert vertexData[..i] == vertexData;
    box := Box(meshMin, meshMax);
    if |vertexData| == 0 {
      forall a: Axis ensures Coord(box.min, a) > Coord(box.max, a) {
        assert Coord(box.min, a) == FloatMax && Coord(box.max, a) == FloatMin;
      }
    }
    if |vertexData| > 0 && (forall j | 0 <= j < |vertexData| :: InFloatRange(vertexData[j].position)) {
      var p0 := vertexData[0].position;
      assert InFloatRange(p0);
      forall a: Axis ensures LowAttained(box, vertexData, a) && HighAttained(box, vertexData, a) {
        if Coord(box.min, a) == FloatMax {
          assert Coord(p0, a) == FloatMax;
        }
        if Coord(box.max, a) == FloatMin {
          assert Coord(p0, a) == FloatMin;
        }
      }
      assert Coord(box.min, X) <= Coord(p0, X) <= Coord(box.max, X);
      assert Coord(box.min, Y) <= Coord(p0, Y) <= Coord(box.max, Y);
      assert Coord(box.min, Z) <= Coord(p0, Z) <= Coord(box.max, Z);
    }
  }
}
