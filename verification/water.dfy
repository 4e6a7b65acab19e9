/** `WaterSystem.Load` (`Systems/WaterSystem.cs`): a flat 1081 by 1081 grid
    of translucent blue vertices ten units above the lowest point of the
    last heightmap, the triangle list over it, a random up/down direction
    per vertex, and the entity that carries the resulting model. The
    seeded random generator is a parameter: `draws(i)` is the `i`-th value
    `rnd.Next(0, 100)` returns. */
module Water {
  import opened Wrappers
  import opened Vectors
  import opened Components
  import opened Mesh
  import S = Store
  import R = Registry

  /** `terrainWidth` and `terrainHeight`. */
  const GridSize: int := 1081

  /** The water lies this far above the heightmap's lowest point. */
  const Lift: real := 10.0

  /** The alpha of the water colour. */
  const Alpha: int := 100

  /** The water entity's transform: position (-590, -275, -590), scale 1. */
  const Placement: Transform := Transform(Vec3(-590.0, -275.0, -590.0), Vec3(1.0, 1.0, 1.0))

  /** The direction a draw gives: down when it is above 50, else up. */
  function Direction(roll: int): (dir: int)
    ensures dir == -1 || dir == 1
    ensures dir == -1 <==> roll > 50
  {
    if roll > 50 then -1 else 1
  }

  /** The water mesh part and the vibration array the system keeps. The
      draw counts are those set on the mesh part; the bounding box is the
      one the bounding sphere is built from. */
  datatype WaterMesh = WaterMesh(vertices: seq<Vertex>, indices: seq<int>, vibrations: seq<int>,
                                 numVertices: int, primitiveCount: int, box: Box)

  /** The vertex at grid point `(x, y)`. */
  function SurfaceVertex(lowest: real, x: int, y: int): Vertex {
    Vertex(Vec3(x as real, lowest + Lift, y as real), Zero, Blue(Alpha))
  }

  /** The grid of an `n` by `n` water surface over a heightmap with the
      given extremes. The vertex loop runs `x` outer and `y` inner, so the
      draw for grid point `(x, y)` is the `(x * n + y)`-th. */
  function Grid(n: nat, lowest: real, highest: real, draws: nat -> int): (m: WaterMesh)
    requires n >= 1
  {
    var vertices := Lattice(n, n, (x, y) => SurfaceVertex(lowest, x, y));
    var vibrations := Lattice(n, n, (x: int, y: int) => if x * n + y >= 0 then Direction(draws(x * n + y)) else 1);
    var indices := TriangleGrid(n, n);
    WaterMesh(vertices, indices, vibrations, |indices|, |indices| / 3,
              Box(Vec3(0.0, lowest, 0.0), Vec3(GridSize as real, highest, GridSize as real)))
  }

  /** The array sizes: `n * n` vertices and vibrations, `(n - 1)^2 * 6`
      indices, one primitive per three indices, and the vertex count set
      on the mesh part equal to the index count. */
  lemma GridSizes(n: nat, lowest: real, highest: real, draws: nat -> int)
    requires n >= 1
    ensures var m := Grid(n, lowest, highest, draws);
      && |m.vertices| == n * n && |m.vibrations| == n * n
      && |m.indices| == (n - 1) * (n - 1) * 6
      && m.primitiveCount * 3 == |m.indices|
      && m.numVertices == |m.indices|
  {
    GridLayout(n, n);
  }

  /** For the 1081 by 1081 grid: 1168561 vertices and vibrations and
      6998400 indices. */
  lemma WaterSizes(lowest: real, highest: real, draws: nat -> int)
    ensures var m := Grid(GridSize, lowest, highest, draws);
      |m.vertices| == 1168561 && |m.vibrations| == 1168561 && |m.indices| == 6998400
  {
    GridSizes(GridSize, lowest, highest, draws);
  }

  /** Vertex `x + y * n` is at `(x, lowest + 10, y)`, blue with alpha 100,
      and its vibration comes from draw `x * n + y`. */
  lemma GridAt(n: nat, lowest: real, highest: real, draws: nat -> int, x: int, y: int)
    requires n >= 1 && 0 <= x < n && 0 <= y < n
    ensures 0 <= x + y * n < n * n && 0 <= x * n + y
    ensures var m := Grid(n, lowest, highest, draws);
      && m.vertices[x + y * n].position == Vec3(x as real, lowest + Lift, y as real)
      && m.vertices[x + y * n].color == Blue(Alpha)
      && m.vibrations[x + y * n] == Direction(draws(x * n + y))
  {
    LatticeAt(n, n, (x, y) => SurfaceVertex(lowest, x, y), x, y);
    LatticeAt(n, n, (x: int, y: int) => if x * n + y >= 0 then Direction(draws(x * n + y)) else 1, x, y);
    assert x * n >= 0;
  }

  /** The surface is flat, every vibration is up or down, and every index
      names a vertex of the grid. */
  lemma GridShape(n: nat, lowest: real, highest: real, draws: nat -> int)
    requires n >= 1
    ensures var m := Grid(n, lowest, highest, draws);
      && (forall i | 0 <= i < |m.vertices| :: m.vertices[i].position.y == lowest + Lift)
      && (forall i | 0 <= i < |m.vibrations| :: m.vibrations[i] == -1 || m.vibrations[i] == 1)
      && (forall j | 0 <= j < |m.indices| :: 0 <= m.indices[j] < |m.vertices|)
  {
    LatticeAll(n, n, (x, y) => SurfaceVertex(lowest, x, y), (v: Vertex) => v.position.y == lowest + Lift);
    var f := (x: int, y: int) => if x * n + y >= 0 then Direction(draws(x * n + y)) else 1;
    forall x, y | 0 <= x < n && 0 <= y < n ensures f(x, y) == -1 || f(x, y) == 1 {
      if x * n + y >= 0 {
        assert f(x, y) == Direction(draws(x * n + y));
      }
    }
    LatticeAll(n, n, f, (d: int) => d == -1 || d == 1);
    GridInRange(n, n);
  }

  /** Cell `(x, y)` of the index list occupies positions
      `6 * (x + y * (n - 1))` onward and holds the two triangles (top-left,
      lower-right, lower-left) and (top-left, top-right, lower-right). */
  lemma GridCells(n: nat, lowest: real, highest: real, draws: nat -> int)
    requires n >= 1
    ensures var ix := Grid(n, lowest, highest, draws).indices;
      CellsLaid(ix, n, n)
  {
    var ix := TriangleGrid(n, n);
    assert Grid(n, lowest, highest, draws).indices == ix;
    GridLayout(n, n);
  }

  /** The heightmap a pass over `ids` of the renderable table sees last. */
  function LastHeightmap(st: S.Store, ids: seq<int>): (h: Option<Heightmap>)
    ensures h.Some? ==> exists j | 0 <= j < |ids| :: ids[j] in st.entries && st.entries[ids[j]] == CHeightmap(h.value)
    ensures h.None? <==> forall j | 0 <= j < |ids| :: ids[j] !in st.entries || !st.entries[ids[j]].CHeightmap?
    decreases |ids|
  {
    if |ids| == 0 then None
    else
      var last := ids[|ids| - 1];
      if last in st.entries && st.entries[last].CHeightmap? then Some(st.entries[last].heightmap)
      else LastHeightmap(st, ids[..|ids| - 1])
  }

  /** A renderable table entry is a heightmap. */
  predicate IsHeightmap(st: S.Store, id: int) {
    id in st.entries && st.entries[id].CHeightmap?
  }

  /** No heightmap comes after the one found last. */
  lemma {:induction false} LastHeightmapIsLast(st: S.Store, ids: seq<int>)
    requires LastHeightmap(st, ids).Some?
    ensures exists j | 0 <= j < |ids| ::
      && IsHeightmap(st, ids[j]) && st.entries[ids[j]].heightmap == LastHeightmap(st, ids).value
      && forall i | j < i < |ids| :: !IsHeightmap(st, ids[i])
    decreases |ids|
  {
    var last := ids[|ids| - 1];
    if IsHeightmap(st, last) {
      assert IsHeightmap(st, ids[|ids| - 1]);
    } else {
      var init := ids[..|ids| - 1];
      assert LastHeightmap(st, ids) == LastHeightmap(st, init);
      LastHeightmapIsLast(st, init);
      var j :| 0 <= j < |init|
        && IsHeightmap(st, init[j]) && st.entries[init[j]].heightmap == LastHeightmap(st, init).value
        && forall i | j < i < |init| :: !IsHeightmap(st, init[i]);
      assert ids[j] == init[j];
      forall i | j < i < |ids| ensures !IsHeightmap(st, ids[i]) {
        if i < |ids| - 1 {
          assert ids[i] == init[i];
        }
      }
    }
  }

  /** The mesh the loop leaves behind: the grid over the last heightmap, or
      none. */
  function WaterModel(r: R.Registry, draws: nat -> int): Option<WaterMesh>
    requires R.Valid(r)
  {
    var st := R.GetComponents(r, T3DRenderable);
    match LastHeightmap(st, st.order)
    case None => None
    case Some(hm) => Some(Grid(GridSize, hm.lowest, hm.highest, draws))
  }

  /** A mesh is built exactly when the renderables include a heightmap, and
      it is the grid over the last heightmap in table order. */
  lemma WaterModelSeen(r: R.Registry, draws: nat -> int)
    requires R.Valid(r)
    ensures var st := R.GetComponents(r, T3DRenderable);
      && (WaterModel(r, draws).Some? <==> exists k | k in st.entries :: st.entries[k].CHeightmap?)
      && (WaterModel(r, draws).Some? ==>
            exists j | 0 <= j < |st.order| ::
              && IsHeightmap(st, st.order[j])
              && WaterModel(r, draws).value == Grid(GridSize, st.entries[st.order[j]].heightmap.lowest, st.entries[st.order[j]].heightmap.highest, draws)
              && forall i | j < i < |st.order| :: !IsHeightmap(st, st.order[i]))
  {
    var st := R.GetComponents(r, T3DRenderable);
    HeightmapSeen(st);
    if LastHeightmap(st, st.order).Some? {
      var hm := LastHeightmap(st, st.order).value;
      var g := Grid(GridSize, hm.lowest, hm.highest, draws);
      assert WaterModel(r, draws) == Some(g);
      LastHeightmapIsLast(st, st.order);
      var j :| 0 <= j < |st.order|
        && IsHeightmap(st, st.order[j]) && st.entries[st.order[j]].heightmap == hm
        && forall i | j < i < |st.order| :: !IsHeightmap(st, st.order[i]);
      assert g == Grid(GridSize, st.entries[st.order[j]].heightmap.lowest, st.entries[st.order[j]].heightmap.highest, draws);
    }
  }

  /** A pass over a whole table finds a heightmap iff the table holds one. */
  lemma HeightmapSeen(st: S.Store)
    requires S.Valid(st)
    ensures LastHeightmap(st, st.order).Some? <==> exists k | k in st.entries :: st.entries[k].CHeightmap?
  {
    if LastHeightmap(st, st.order).None? {
      forall k | k in st.entries ensures !st.entries[k].CHeightmap? {
        var j :| 0 <= j < |st.order| && st.order[j] == k;
      }
    } else {
      var j :| 0 <= j < |st.order| && st.order[j] in st.entries && st.entries[st.order[j]] == CHeightmap(LastHeightmap(st, st.order).value);
    }
  }

  /** `WaterSystem.Load()`: the grid is built for every heightmap among the
      3D renderables and the last one built is kept; then a new entity gets
      the placement transform and an imported-model renderable whose model
      is named by the new entity, or is null when no heightmap was seen.
      Both additions fail when their type has no table. */
  function Load(r: R.Registry, draws: nat -> int): (res: Result<(R.Registry, Option<WaterMesh>)>)
    requires R.Valid(r)
    ensures var id := r.counter + 1;
      res.Ok? <==> TTransform in r.stores && T3DRenderable in r.stores &&
                   !R.Stored(r, TTransform, id) && !R.Stored(r, T3DRenderable, id)
    ensures TTransform !in r.stores ==> res == Err(MissingKey)
    ensures res.Ok? ==> R.Valid(res.value.0) && res.value.1 == WaterModel(r, draws)
    ensures var id := r.counter + 1;
      res.Ok? ==>
        && res.value.0.entities == r.entities + [id] && id !in r.entities
        && R.GetComponentFromEntity(res.value.0, TTransform, id) == Ok(CTransform(Placement))
        && R.GetComponentFromEntity(res.value.0, T3DRenderable, id) == Ok(CImportedModel(if res.value.1.Some? then Some(id) else None))
        && forall t, k | k != id :: R.GetComponentFromEntity(res.value.0, t, k) == R.GetComponentFromEntity(r, t, k)
  {
    var water := WaterModel(r, draws);
    var r3 :- AddWater(r, water.Some?);
    Ok((r3, water))
  }

  /** The new entity with the placement transform and the imported-model
      renderable, named by the entity when `built`. */
  function AddWater(r: R.Registry, built: bool): (res: Result<R.Registry>)
    requires R.Valid(r)
    ensures var id := r.counter + 1;
      res.Ok? <==> TTransform in r.stores && T3DRenderable in r.stores &&
                   !R.Stored(r, TTransform, id) && !R.Stored(r, T3DRenderable, id)
    ensures TTransform !in r.stores ==> res == Err(MissingKey)
    ensures res.Ok? ==> R.Valid(res.value)
    ensures var id := r.counter + 1;
      res.Ok? ==>
        && res.value.entities == r.entities + [id] && id !in r.entities
        && R.GetComponentFromEntity(res.value, TTransform, id) == Ok(CTransform(Placement))
        && R.GetComponentFromEntity(res.value, T3DRenderable, id) == Ok(CImportedModel(if built then Some(id) else None))
        && forall t, k | k != id :: R.GetComponentFromEntity(res.value, t, k) == R.GetComponentFromEntity(r, t, k)
  {
    var (r1, id) := R.AddEntity(r);
    assert forall t, k :: R.GetComponentFromEntity(r1, t, k) == R.GetComponentFromEntity(r, t, k);
    var r2 :- R.AddComponent(r1, id, CTransform(Placement), TTransform);
    R.AddComponent(r2, id, CImportedModel(if built then Some(id) else None), T3DRenderable)
  }
}
