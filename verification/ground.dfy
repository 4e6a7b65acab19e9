/** `MapSystem.buildGround` (`Systems/MapSystem.cs`): the skirt of vertical
    quads that closes the terrain off at its four borders, reaching from the
    height of each border texel down to a fixed depth below zero, and the
    `short` index list drawn over it. */
module Ground {
  import opened Wrappers
  import opened Vectors
  import opened Components
  import opened Mesh
  import M = Map

  /** The `height` argument `Load` passes: the skirt reaches down to -20. */
  const SkirtDepth: int := 20

  /** The largest value of a `short`, the type of the index loop counter. */
  const ShortMax: int := 32767

  /** The face normals. */
  const RightNormal: Vec3 := Vec3(1.0, 0.0, 0.0)
  const LeftNormal: Vec3 := Vec3(-1.0, 0.0, 0.0)
  const ForwardNormal: Vec3 := Vec3(0.0, 0.0, 1.0)
  const BackwardNormal: Vec3 := Vec3(0.0, 0.0, -1.0)

  /** The number of quads along a border of `n` texels: the loops run to
      `n - 1`. */
  function Span(n: int): (s: nat)
    ensures n >= 1 ==> s == n - 1
    ensures n < 1 ==> s == 0
  {
    if n >= 1 then n - 1 else 0
  }

  /** The red channel of texel `(x, z)`; only read where the texel exists. */
  function Surface(hd: seq<seq<Pixel>>, x: int, z: int): real {
    if M.InMap(hd, x, z) then hd[x][z].r as real else 0.0
  }

  /** The top corner of the skirt above texel `(x, z)`. */
  function Top(hd: seq<seq<Pixel>>, x: int, z: int): Vec3 {
    Vec3(x as real, Surface(hd, x, z), z as real)
  }

  /** The bottom corner below texel `(x, z)`. */
  function Bottom(x: int, z: int, depth: int): Vec3 {
    Vec3(x as real, -depth as real, z as real)
  }

  /** Two triangles over the corners, in the order the faces add them:
      (top-left, bottom-right, bottom-left) and (top-left, top-right,
      bottom-right), all in the ground colour. */
  function Quad(topLeft: Vec3, bottomRight: Vec3, bottomLeft: Vec3, topRight: Vec3, normal: Vec3): (q: seq<Vertex>)
    ensures |q| == 6
    ensures forall i | 0 <= i < 6 :: q[i].normal == normal && q[i].color == SaddleBrown
    ensures q[0].position == topLeft && q[3].position == topLeft && q[4].position == topRight
    ensures q[1].position == bottomRight && q[5].position == bottomRight && q[2].position == bottomLeft
  {
    [Vertex(topLeft, normal, SaddleBrown), Vertex(bottomRight, normal, SaddleBrown),
     Vertex(bottomLeft, normal, SaddleBrown), Vertex(topLeft, normal, SaddleBrown),
     Vertex(topRight, normal, SaddleBrown), Vertex(bottomRight, normal, SaddleBrown)]
  }

  /** One pass of the first loop: the front quad between columns `x` and
      `x + 1` on row `d - 1`, then the back quad on row 0, wound the other
      way. */
  function FrontBack(hd: seq<seq<Pixel>>, d: int, x: int, depth: int): (r: seq<Vertex>)
    ensures |r| == 12
  {
    var z := d - 1;
    Quad(Top(hd, x, z), Bottom(x + 1, z, depth), Bottom(x, z, depth), Top(hd, x + 1, z), ForwardNormal) +
    Quad(Top(hd, x + 1, 0), Bottom(x, 0, depth), Bottom(x + 1, 0, depth), Top(hd, x, 0), BackwardNormal)
  }

  /** One pass of the second loop: the left quad between rows `z` and
      `z + 1` on column 0, then the right quad on column `xr`. */
  function Sides(hd: seq<seq<Pixel>>, xr: int, z: int, depth: int): (r: seq<Vertex>)
    ensures |r| == 12
  {
    Quad(Top(hd, 0, z), Bottom(0, z + 1, depth), Bottom(0, z, depth), Top(hd, 0, z + 1), LeftNormal) +
    Quad(Top(hd, xr, z + 1), Bottom(xr, z, depth), Bottom(xr, z + 1, depth), Top(hd, xr, z), RightNormal)
  }

  /** The vertex list: every front/back pass, then every left/right pass. */
  function Skirt(hd: seq<seq<Pixel>>, w: int, d: int, xr: int, depth: int): seq<Vertex> {
    Flatten(seq(Span(w), x => FrontBack(hd, d, x, depth))) +
    Flatten(seq(Span(d), z => Sides(hd, xr, z, depth)))
  }

  /** The texels `(x, z)` and `(x + 1, z)` exist. */
  predicate PairAlongX(hd: seq<seq<Pixel>>, x: int, z: int) {
    M.InMap(hd, x, z) && M.InMap(hd, x + 1, z)
  }

  /** The texels `(x, z)` and `(x, z + 1)` exist. */
  predicate PairAlongZ(hd: seq<seq<Pixel>>, x: int, z: int) {
    M.InMap(hd, x, z) && M.InMap(hd, x, z + 1)
  }

  /** Every texel the two loops read exists. */
  predicate Readable(hd: seq<seq<Pixel>>, w: int, d: int, xr: int) {
    && (forall x | 0 <= x < Span(w) :: PairAlongX(hd, x, d - 1) && PairAlongX(hd, x, 0))
    && (forall z | 0 <= z < Span(d) :: PairAlongZ(hd, 0, z) && PairAlongZ(hd, xr, z))
  }

  /** The index list `0, 1, ..., 12 * (width + depth) - 1` built with a
      `short` counter: past 32767 the counter wraps to -32768 and stays
      below the bound, so the list keeps growing until allocating it fails
      with an OutOfMemoryException. */
  function IndexList(width: int, depth: int): (r: Result<seq<int>>)
    ensures r.Err? <==> width * 12 + depth * 12 > ShortMax
    ensures r.Err? ==> r.error == OutOfMemory
    ensures r.Ok? ==> |r.value| == if width * 12 + depth * 12 > 0 then width * 12 + depth * 12 else 0
    ensures r.Ok? ==> forall i | 0 <= i < |r.value| :: r.value[i] == i
  {
    var len := width * 6 * 2 + depth * 6 * 2;
    if len > ShortMax then Err(OutOfMemory)
    else if len <= 0 then Ok([])
    else Ok(seq(len, i => i))
  }

  /** The ground mesh part: its vertices, its indices, and the vertex and
      triangle counts the draw call uses. */
  datatype GroundMesh = GroundMesh(vertices: seq<Vertex>, indices: seq<int>, numVertices: int, primitiveCount: int)

  /** `buildGround` with the right face on column `xr`. */
  function Build(hm: Heightmap, depth: int, xr: int): (r: Result<GroundMesh>)
    ensures var w := hm.image.width; var d := hm.image.height;
      && (r.Ok? <==> Readable(hm.heightData, w, d, xr) && w * 12 + d * 12 <= ShortMax)
      && (!Readable(hm.heightData, w, d, xr) ==> r == Err(IndexOutOfRange))
      && (Readable(hm.heightData, w, d, xr) && w * 12 + d * 12 > ShortMax ==> r == Err(OutOfMemory))
  {
    var w := hm.image.width;
    var d := hm.image.height;
    if !Readable(hm.heightData, w, d, xr) then Err(IndexOutOfRange)
    else
      var vertices := Skirt(hm.heightData, w, d, xr, depth);
      var indices :- IndexList(w, d);
      Ok(GroundMesh(vertices, indices, |vertices|, |vertices| / 3))
  }

  /** `buildGround(heightmap, height)` as written: the right face is placed
      on column `depth - 1`. */
  function BuildGroundAsWritten(hm: Heightmap, depth: int): (r: Result<GroundMesh>)
  {
    Build(hm, depth, hm.image.height - 1)
  }

  /** `buildGround` with the right face on the last column, `width - 1`. */
  function BuildGround(hm: Heightmap, depth: int): (r: Result<GroundMesh>)
  {
    Build(hm, depth, hm.image.width - 1)
  }

  /** Twelve skirt vertices per front/back pass and per left/right pass. */
  lemma SkirtLength(hd: seq<seq<Pixel>>, w: int, d: int, xr: int, depth: int)
    ensures |Skirt(hd, w, d, xr, depth)| == 12 * Span(w) + 12 * Span(d)
  {
    var fb := seq(Span(w), x => FrontBack(hd, d, x, depth));
    var sd := seq(Span(d), z => Sides(hd, xr, z, depth));
    FlattenLength(fb, 12);
    FlattenLength(sd, 12);
    assert Skirt(hd, w, d, xr, depth) == Flatten(fb) + Flatten(sd);
  }

  /** The skirt lists the front/back passes in column order, 12 vertices
      each, then the left/right passes in row order. */
  lemma SkirtAt(hd: seq<seq<Pixel>>, w: int, d: int, xr: int, depth: int)
    ensures |Skirt(hd, w, d, xr, depth)| == 12 * Span(w) + 12 * Span(d)
    ensures forall x, k | 0 <= x < Span(w) && 0 <= k < 12 ::
              0 <= 12 * x + k < 12 * Span(w) &&
              Skirt(hd, w, d, xr, depth)[12 * x + k] == FrontBack(hd, d, x, depth)[k]
    ensures forall z, k | 0 <= z < Span(d) && 0 <= k < 12 ::
              0 <= 12 * z + k < 12 * Span(d) &&
              Skirt(hd, w, d, xr, depth)[12 * Span(w) + 12 * z + k] == Sides(hd, xr, z, depth)[k]
  {
    SkirtLength(hd, w, d, xr, depth);
    forall x, k | 0 <= x < Span(w) && 0 <= k < 12
      ensures 0 <= 12 * x + k < 12 * Span(w) && Skirt(hd, w, d, xr, depth)[12 * x + k] == FrontBack(hd, d, x, depth)[k]
    {
      SkirtFrontBackAt(hd, w, d, xr, depth, x, k);
    }
    forall z, k | 0 <= z < Span(d) && 0 <= k < 12
      ensures 0 <= 12 * z + k < 12 * Span(d) &&
              Skirt(hd, w, d, xr, depth)[12 * Span(w) + 12 * z + k] == Sides(hd, xr, z, depth)[k]
    {
      SkirtSidesAt(hd, w, d, xr, depth, z, k);
    }
  }

  /** Entry `k` of the front/back pass for column `x`. */
  lemma SkirtFrontBackAt(hd: seq<seq<Pixel>>, w: int, d: int, xr: int, depth: int, x: int, k: int)
    requires 0 <= x < Span(w) && 0 <= k < 12
    ensures |Skirt(hd, w, d, xr, depth)| == 12 * Span(w) + 12 * Span(d)
    ensures 0 <= 12 * x + k < 12 * Span(w) && Skirt(hd, w, d, xr, depth)[12 * x + k] == FrontBack(hd, d, x, depth)[k]
  {
    var fb := seq(Span(w), x => FrontBack(hd, d, x, depth));
    var sd := seq(Span(d), z => Sides(hd, xr, z, depth));
    FlattenLength(fb, 12);
    FlattenLength(sd, 12);
    FlattenBlockAt(fb, 12, x, k);
    assert Skirt(hd, w, d, xr, depth) == Flatten(fb) + Flatten(sd);
    assert fb[x] == FrontBack(hd, d, x, depth);
  }

  /** Entry `k` of the left/right pass for row `z`. */
  lemma SkirtSidesAt(hd: seq<seq<Pixel>>, w: int, d: int, xr: int, depth: int, z: int, k: int)
    requires 0 <= z < Span(d) && 0 <= k < 12
    ensures |Skirt(hd, w, d, xr, depth)| == 12 * Span(w) + 12 * Span(d)
    ensures 0 <= 12 * z + k < 12 * Span(d) &&
            Skirt(hd, w, d, xr, depth)[12 * Span(w) + 12 * z + k] == Sides(hd, xr, z, depth)[k]
  {
    var fb := seq(Span(w), x => FrontBack(hd, d, x, depth));
    var sd := seq(Span(d), z => Sides(hd, xr, z, depth));
    FlattenLength(fb, 12);
    FlattenLength(sd, 12);
    FlattenBlockAt(sd, 12, z, k);
    assert Skirt(hd, w, d, xr, depth) == Flatten(fb) + Flatten(sd);
    assert sd[z] == Sides(hd, xr, z, depth);
  }

  /** The counts of a built ground: 12 vertices per border quad pair, one
      triangle per three vertices, and the index list `0, 1, 2, ...`, so
      the triangles drawn use every vertex exactly once, in order. The list
      is 24 entries longer than the vertex list; those entries name no
      vertex and lie past the last triangle drawn. */
  lemma GroundCounts(hm: Heightmap, depth: int, xr: int)
    requires Build(hm, depth, xr).Ok?
    ensures var g := Build(hm, depth, xr).value; var w := hm.image.width; var d := hm.image.height;
      && g.numVertices == |g.vertices| == 12 * Span(w) + 12 * Span(d)
      && g.primitiveCount * 3 == g.numVertices
      && |g.indices| == 12 * w + 12 * d
      && (w >= 1 && d >= 1 ==> |g.indices| == g.numVertices + 24)
      && g.numVertices <= |g.indices|
      && forall i | 0 <= i < g.primitiveCount * 3 :: g.indices[i] == i && i < g.numVertices
  {
    var w, d := hm.image.width, hm.image.height;
    var g := Build(hm, depth, xr).value;
    SkirtLength(hm.heightData, w, d, xr, depth);
    var n := Span(w) + Span(d);
    assert g.numVertices == |g.vertices| == 12 * n;
    assert g.primitiveCount == 12 * n / 3 == 4 * n;
    assert g.indices == IndexList(w, d).value;
    if w >= 1 && d >= 1 {
      assert 12 * n == 12 * w + 12 * d - 24;
    }
  }

  /** Where each vertex of the skirt lies: front faces point forward on
      row `d - 1`, back faces backward on row 0, left faces left on column
      0, right faces right on column `xr`, all in the ground colour. */
  predicate FacesAt(v: Vertex, xr: int, d: int) {
    && v.color == SaddleBrown
    && ((v.normal == ForwardNormal && v.position.z == (d - 1) as real)
        || (v.normal == BackwardNormal && v.position.z == 0.0)
        || (v.normal == LeftNormal && v.position.x == 0.0)
        || (v.normal == RightNormal && v.position.x == xr as real))
  }

  /** Every skirt vertex is on its face's border line. */
  lemma SkirtFaces(hd: seq<seq<Pixel>>, w: int, d: int, xr: int, depth: int)
    ensures forall i | 0 <= i < |Skirt(hd, w, d, xr, depth)| :: FacesAt(Skirt(hd, w, d, xr, depth)[i], xr, d)
  {
    var fb := seq(Span(w), x => FrontBack(hd, d, x, depth));
    var sd := seq(Span(d), z => Sides(hd, xr, z, depth));
    var p := (v: Vertex) => FacesAt(v, xr, d);
    forall i, k | 0 <= i < |fb| && 0 <= k < |fb[i]| ensures p(fb[i][k]) {
      assert fb[i] == FrontBack(hd, d, i, depth);
    }
    forall i, k | 0 <= i < |sd| && 0 <= k < |sd[i]| ensures p(sd[i][k]) {
      assert sd[i] == Sides(hd, xr, i, depth);
    }
    FlattenAll(fb, p);
    FlattenAll(sd, p);
    var s := Skirt(hd, w, d, xr, depth);
    forall i | 0 <= i < |s| ensures FacesAt(s[i], xr, d) {
      if i < |Flatten(fb)| {
        assert s[i] == Flatten(fb)[i];
      } else {
        assert s[i] == Flatten(sd)[i - |Flatten(fb)|];
      }
    }
  }

  /** For a well-formed image at least one texel each way whose index list
      fits a `short`, the corrected ground is built, and every vertex of it
      lies on the border of the map: on row 0 or `d - 1`, or on column 0
      or `w - 1`. */
  lemma GroundOnBorder(hm: Heightmap, depth: int)
    requires M.WellFormed(hm.image) && hm.heightData == M.HeightData(hm.image)
    requires hm.image.width >= 1 && hm.image.height >= 1
    requires hm.image.width * 12 + hm.image.height * 12 <= ShortMax
    ensures BuildGround(hm, depth).Ok?
    ensures var g := BuildGround(hm, depth).value;
      forall i | 0 <= i < |g.vertices| :: FacesAt(g.vertices[i], hm.image.width - 1, hm.image.height)
  {
    SkirtFaces(hm.heightData, hm.image.width, hm.image.height, hm.image.width - 1, depth);
  }

  /** As written, an image deeper than it is wide (and at least two texels
      deep) cannot be given a ground: the right face reads column
      `depth - 1`, past the last column. */
  lemma AsWrittenDeepMapFails(hm: Heightmap, depth: int)
    requires M.WellFormed(hm.image) && hm.heightData == M.HeightData(hm.image)
    requires hm.image.height >= 2 && hm.image.height > hm.image.width
    ensures BuildGroundAsWritten(hm, depth) == Err(IndexOutOfRange)
  {
    assert !PairAlongZ(hm.heightData, hm.image.height - 1, 0);
  }

  /** As written, an image no deeper than it is wide is given a ground:
      column `depth - 1` exists there. */
  lemma AsWrittenShallowMapBuilds(hm: Heightmap, depth: int)
    requires M.WellFormed(hm.image) && hm.heightData == M.HeightData(hm.image)
    requires 1 <= hm.image.height <= hm.image.width
    requires hm.image.width * 12 + hm.image.height * 12 <= ShortMax
    ensures BuildGroundAsWritten(hm, depth).Ok?
  {
  }

  /** As written, on a map 3 texels wide and 2 deep the right face is drawn
      on column 1, through the middle of the map, not on its last column 2. */
  lemma AsWrittenRightFaceInside()
    ensures var p := Pixel(0, 0);
      var hm := Heightmap(Image(3, 2, [p, p, p, p, p, p]), [[p, p], [p, p], [p, p]], 0.0, 0.0, None);
      && BuildGroundAsWritten(hm, SkirtDepth).Ok?
      && |BuildGroundAsWritten(hm, SkirtDepth).value.vertices| > 30
      && var v := BuildGroundAsWritten(hm, SkirtDepth).value.vertices[30];
      v.normal == RightNormal && v.position.x == 1.0 && v.position.x != (hm.image.width - 1) as real
  {
    var p := Pixel(0, 0);
    var hm := Heightmap(Image(3, 2, [p, p, p, p, p, p]), [[p, p], [p, p], [p, p]], 0.0, 0.0, None);
    assert PairAlongZ(hm.heightData, 0, 0) && PairAlongZ(hm.heightData, 1, 0);
    assert PairAlongX(hm.heightData, 0, 1) && PairAlongX(hm.heightData, 1, 1);
    assert PairAlongX(hm.heightData, 0, 0) && PairAlongX(hm.heightData, 1, 0);
    assert Readable(hm.heightData, 3, 2, 1);
    SkirtAt(hm.heightData, 3, 2, 1, SkirtDepth);
    assert 12 * Span(3) + 12 * 0 + 6 == 30;
  }
}
