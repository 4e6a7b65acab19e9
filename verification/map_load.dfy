/** `MapSystem.Load` (`Systems/MapSystem.cs`): for every heightmap among the
    3D renderables, the chunk index and vertex dictionaries, the height data
    and extremes, and the ground skirt, gathered into the terrain model the
    heightmap now refers to. */
module MapLoad {
  import opened Wrappers
  import opened Components
  import opened Mesh
  import S = Store
  import R = Registry
  import M = Map
  import G = Ground

  /** The model `Load` attaches to a heightmap: one mesh per chunk (its
      index and vertex arrays, keyed by chunk number) and the ground. */
  datatype Terrain = Terrain(indices: map<int, seq<int>>, chunks: map<int, seq<Vertex>>, ground: G.GroundMesh)

  /** Stacking 20 spans of `n - 1` from a point inside the first stays
      inside `20 * n`. */
  lemma Stacked(x: int, i: int, n: int)
    requires 0 <= x < n && 0 <= i < M.ChunkSplit
    ensures 0 <= x + i * (n - 1) < M.ChunkSplit * n
  {
    assert (M.ChunkSplit - 1 - i) * (n - 1) >= 0;
    assert i * (n - 1) <= (M.ChunkSplit - 1) * (n - 1);
  }

  /** Every chunk of a well-formed image lies inside it: the last chunk
      column ends on texel `20 * (w - 1)`, below the width. */
  lemma ChunksInside(img: Image)
    requires M.WellFormed(img)
    ensures forall k: nat | k < M.ChunkCount :: M.ChunkAt(M.HeightData(img), img.width / M.ChunkSplit, img.height / M.ChunkSplit, k).Ok?
  {
    var hd := M.HeightData(img);
    var w := img.width / M.ChunkSplit;
    var h := img.height / M.ChunkSplit;
    forall k: nat | k < M.ChunkCount ensures M.ChunkAt(hd, w, h, k).Ok? {
      forall x, y | 0 <= x < w && 0 <= y < h ensures M.InMapAt(hd, M.XOffset(k, w), M.YOffset(k, h), x, y) {
        M.OffsetSteps(k, w, h);
        Stacked(x, k / M.ChunkSplit, w);
        Stacked(y, k % M.ChunkSplit, h);
      }
    }
  }

  /** The keys `0 .. n - 1`. */
  function Range(n: nat): (ks: set<int>)
    ensures |ks| == n
    ensures forall k :: k in ks <==> 0 <= k < n
  {
    if n == 0 then {} else Range(n - 1) + {n - 1}
  }

  /** The loop over chunk numbers `0 .. |chunks| - 1` reads both
      dictionaries at each number. */
  predicate PartsPresent(chunks: map<int, seq<Vertex>>, indices: map<int, seq<int>>) {
    forall j | 0 <= j < |chunks| :: j in chunks && j in indices
  }

  /** Every index of a whole triangle of `ind` names one of `n` vertices:
      `CalculateNormals` reads `vertices[ind[i]]` for the first
      `|ind| / 3 * 3` entries and throws on any other. */
  predicate TrianglesIn(ind: seq<int>, n: int) {
    forall i | 0 <= i < |ind| / 3 * 3 :: 0 <= ind[i] < n
  }

  /** `CalculateNormals` succeeds on every chunk the loop visits. */
  predicate NormalsReadable(chunks: map<int, seq<Vertex>>, indices: map<int, seq<int>>)
    requires PartsPresent(chunks, indices)
  {
    forall j | 0 <= j < |chunks| :: TrianglesIn(indices[j], |chunks[j]|)
  }

  /** `Load` for one heightmap, whose model is named `handle`: the index
      chunks, the height data and extremes, the vertex chunks, the
      per-chunk lookups and normals, and the ground, failing at the first
      step that throws. With `asWritten` the height scan and the ground are
      those of the code as written, otherwise the corrected ones. */
  function LoadWith(hm: Heightmap, handle: int, asWritten: bool): (r: Result<(Heightmap, Terrain)>)
    ensures var heights := if asWritten then M.CalculateHeightDataAsWritten(hm) else M.CalculateHeightData(hm);
      r.Ok? ==> heights.Ok? && r.value.0 == heights.value.(model := Some(handle))
  {
    var indices :- M.CreateIndicesChunks(hm.image.width, hm.image.height, map[], 0);
    var hm1 :- if asWritten then M.CalculateHeightDataAsWritten(hm) else M.CalculateHeightData(hm);
    var chunks :- M.CreateVerticesChunks(hm1.heightData, hm.image.width / M.ChunkSplit, hm.image.height / M.ChunkSplit, map[], 0, 0);
    if !PartsPresent(chunks, indices) then Err(MissingKey)
    else if !NormalsReadable(chunks, indices) then Err(IndexOutOfRange)
    else
      var ground :- if asWritten then G.BuildGroundAsWritten(hm1, G.SkirtDepth) else G.BuildGround(hm1, G.SkirtDepth);
      Ok((hm1.(model := Some(handle)), Terrain(indices, chunks, ground)))
  }

  /** The loader the rest of the model uses: the corrected height scan and
      ground. */
  function LoadHeightmap(hm: Heightmap, handle: int): (r: Result<(Heightmap, Terrain)>)
    ensures r.Ok? ==> M.CalculateHeightData(hm).Ok? && r.value.0 == M.CalculateHeightData(hm).value.(model := Some(handle))
  {
    LoadWith(hm, handle, false)
  }

  /** The loader as the code is written. */
  function LoadHeightmapAsWritten(hm: Heightmap, handle: int): (r: Result<(Heightmap, Terrain)>)
    ensures r.Ok? ==> M.CalculateHeightDataAsWritten(hm).Ok? &&
                      r.value.0 == M.CalculateHeightDataAsWritten(hm).value.(model := Some(handle))
  {
    LoadWith(hm, handle, true)
  }

  /** The failures of the first two steps: an image whose chunk array size
      is negative (one side under 20 texels, the other not) fails with
      `NegativeSize` before anything else is done, and otherwise an image
      whose texel data does not fill it fails with `IndexOutOfRange`. */
  lemma LoadHeightmapErrors(hm: Heightmap, handle: int)
    ensures M.ChunkIndices(hm.image.width, hm.image.height).Err? ==> LoadHeightmap(hm, handle) == Err(NegativeSize)
    ensures M.ChunkIndices(hm.image.width, hm.image.height).Ok? && !M.WellFormed(hm.image) ==>
              LoadHeightmap(hm, handle) == Err(IndexOutOfRange)
  {
    M.IndicesFromZero(hm.image.width, hm.image.height);
  }

  /** A filled image under 20 texels both ways gets six zero indices per
      chunk against empty vertex chunks, so `CalculateNormals` fails with
      `IndexOutOfRange` on the first chunk. */
  lemma LoadHeightmapTooSmall(hm: Heightmap, handle: int)
    requires M.WellFormed(hm.image)
    requires hm.image.width < M.ChunkSplit && hm.image.height < M.ChunkSplit
    ensures LoadHeightmap(hm, handle) == Err(IndexOutOfRange)
  {
    M.IndicesFromZero(hm.image.width, hm.image.height);
    var indices := M.CreateIndicesChunks(hm.image.width, hm.image.height, map[], 0).value;
    assert indices[0] == M.ChunkIndices(hm.image.width, hm.image.height).value == seq(6, _ => 0);
    assert indices[0][0] == 0;
    var hm1 := M.CalculateHeightData(hm).value;
    M.VerticesFromZero(hm1.heightData, 0, 0);
    var chunks := M.CreateVerticesChunks(hm1.heightData, 0, 0, map[], 0, 0).value;
    assert |chunks| == M.ChunkCount by {
      assert chunks.Keys == Range(M.ChunkCount);
    }
    assert |chunks[0]| == 0;
    assert PartsPresent(chunks, indices);
    assert !TrianglesIn(indices[0], |chunks[0]|);
  }

  /** An image at least 20 texels each way: its chunks have `w * h`
      vertices and its triangles name only those, so `CalculateNormals`
      reads inside every chunk. */
  lemma NormalsInside(hm: Heightmap, hm1: Heightmap)
    requires M.WellFormed(hm.image) && hm1.heightData == M.HeightData(hm.image)
    requires hm.image.width >= M.ChunkSplit && hm.image.height >= M.ChunkSplit
    ensures var w := hm.image.width / M.ChunkSplit; var h := hm.image.height / M.ChunkSplit;
      && M.CreateIndicesChunks(hm.image.width, hm.image.height, map[], 0).Ok?
      && M.CreateVerticesChunks(hm1.heightData, w, h, map[], 0, 0).Ok?
      && var indices := M.CreateIndicesChunks(hm.image.width, hm.image.height, map[], 0).value;
         var chunks := M.CreateVerticesChunks(hm1.heightData, w, h, map[], 0, 0).value;
         PartsPresent(chunks, indices) && NormalsReadable(chunks, indices)
  {
    var w := hm.image.width / M.ChunkSplit;
    var h := hm.image.height / M.ChunkSplit;
    M.IndicesFromZero(hm.image.width, hm.image.height);
    M.ChunkIndicesGrid(hm.image.width, hm.image.height);
    var indices := M.CreateIndicesChunks(hm.image.width, hm.image.height, map[], 0).value;
    ChunksInside(hm.image);
    M.VerticesFromZero(hm1.heightData, w, h);
    var chunks := M.CreateVerticesChunks(hm1.heightData, w, h, map[], 0, 0).value;
    assert |chunks| == M.ChunkCount by {
      assert chunks.Keys == Range(M.ChunkCount);
    }
    assert PartsPresent(chunks, indices);
    forall j | 0 <= j < |chunks| ensures TrianglesIn(indices[j], |chunks[j]|) {
      assert |chunks[j]| == w * h;
    }
  }

  /** For an image at least 20 texels each way, whose ground index list
      fits a `short`, every step of `LoadHeightmap` succeeds, and the
      terrain consists of the results of the steps. */
  lemma LoadHeightmapSteps(hm: Heightmap, handle: int)
    requires M.WellFormed(hm.image)
    requires hm.image.width >= M.ChunkSplit && hm.image.height >= M.ChunkSplit
    requires hm.image.width * 12 + hm.image.height * 12 <= G.ShortMax
    ensures var w := hm.image.width / M.ChunkSplit; var h := hm.image.height / M.ChunkSplit;
      && M.CreateIndicesChunks(hm.image.width, hm.image.height, map[], 0).Ok?
      && M.CalculateHeightData(hm).Ok?
      && var hm1 := M.CalculateHeightData(hm).value;
      && M.CreateVerticesChunks(hm1.heightData, w, h, map[], 0, 0).Ok?
      && G.BuildGround(hm1, G.SkirtDepth).Ok?
      && LoadHeightmap(hm, handle) == Ok((hm1.(model := Some(handle)),
           Terrain(M.CreateIndicesChunks(hm.image.width, hm.image.height, map[], 0).value,
                   M.CreateVerticesChunks(hm1.heightData, w, h, map[], 0, 0).value,
                   G.BuildGround(hm1, G.SkirtDepth).value)))
  {
    var hm1 := M.CalculateHeightData(hm).value;
    NormalsInside(hm, hm1);
    G.GroundOnBorder(hm1, G.SkirtDepth);
  }

  /** A well-formed heightmap at least 20 texels each way whose ground
      index list fits a `short` loads: its model is `handle`, the height
      data is the image's grid and the extremes bound every red value,
      there are index and vertex arrays for each chunk 0 to 399 (chunk `k`
      at its offset), and the ground lies on the map border. */
  lemma LoadHeightmapOk(hm: Heightmap, handle: int)
    requires M.WellFormed(hm.image) && M.Bytes(hm.image)
    requires hm.image.width >= M.ChunkSplit && hm.image.height >= M.ChunkSplit
    requires hm.image.width * 12 + hm.image.height * 12 <= G.ShortMax
    ensures LoadHeightmap(hm, handle).Ok?
    ensures var res := LoadHeightmap(hm, handle).value;
      && res.0.image == hm.image && res.0.model == Some(handle)
      && res.0.heightData == M.HeightData(hm.image)
      && (forall p | p in hm.image.pixels :: res.0.lowest <= p.r as real <= res.0.highest)
      && (forall i | 0 <= i < |res.1.ground.vertices| :: G.FacesAt(res.1.ground.vertices[i], hm.image.width - 1, hm.image.height))
  {
    LoadHeightmapSteps(hm, handle);
    M.HeightExtremes(hm);
    G.GroundOnBorder(M.CalculateHeightData(hm).value, G.SkirtDepth);
  }

  /** The chunks of a loaded heightmap: an index and a vertex array for each
      chunk 0 to 399, every index array the chunk grid's, and vertex array
      `k` the chunk at its offset. */
  lemma LoadHeightmapChunks(hm: Heightmap, handle: int)
    requires M.WellFormed(hm.image)
    requires hm.image.width >= M.ChunkSplit && hm.image.height >= M.ChunkSplit
    requires hm.image.width * 12 + hm.image.height * 12 <= G.ShortMax
    ensures LoadHeightmap(hm, handle).Ok?
    ensures var t := LoadHeightmap(hm, handle).value.1;
      var hd := M.HeightData(hm.image);
      var w := hm.image.width / M.ChunkSplit; var h := hm.image.height / M.ChunkSplit;
      && (forall k :: k in t.indices <==> 0 <= k < M.ChunkCount)
      && (forall k | k in t.indices :: t.indices[k] == M.ChunkIndices(hm.image.width, hm.image.height).value)
      && (forall k :: k in t.chunks <==> 0 <= k < M.ChunkCount)
      && (forall k: nat | k < M.ChunkCount :: M.ChunkAt(hd, w, h, k).Ok? && t.chunks[k] == M.ChunkAt(hd, w, h, k).value)
  {
    var w := hm.image.width / M.ChunkSplit;
    var h := hm.image.height / M.ChunkSplit;
    LoadHeightmapSteps(hm, handle);
    M.IndicesFromZero(hm.image.width, hm.image.height);
    ChunksInside(hm.image);
    M.VerticesFromZero(M.HeightData(hm.image), w, h);
  }

  /** The loader as written against the corrected one, on the images the
      corrected one loads: it fails iff the image is deeper than it is
      wide (the ground's right face reads column `height - 1`); when it
      loads, both extremes are the red value of the last texel, and the
      index and vertex chunks are the corrected loader's. */
  lemma AsWrittenLoadDiffers(hm: Heightmap, handle: int)
    requires M.WellFormed(hm.image) && M.Bytes(hm.image)
    requires hm.image.width >= M.ChunkSplit && hm.image.height >= M.ChunkSplit
    requires hm.image.width * 12 + hm.image.height * 12 <= G.ShortMax
    ensures |hm.image.pixels| > 0
    ensures LoadHeightmap(hm, handle).Ok?
    ensures LoadHeightmapAsWritten(hm, handle).Ok? <==> hm.image.height <= hm.image.width
    ensures hm.image.height > hm.image.width ==> LoadHeightmapAsWritten(hm, handle) == Err(IndexOutOfRange)
    ensures LoadHeightmapAsWritten(hm, handle).Ok? ==>
              var last := hm.image.pixels[|hm.image.pixels| - 1].r as real;
              var res := LoadHeightmapAsWritten(hm, handle).value;
              && res.0.lowest == last && res.0.highest == last
              && res.0.heightData == LoadHeightmap(hm, handle).value.0.heightData
              && res.1.indices == LoadHeightmap(hm, handle).value.1.indices
              && res.1.chunks == LoadHeightmap(hm, handle).value.1.chunks
  {
    M.PixelsNonEmpty(hm.image);
    LoadHeightmapSteps(hm, handle);
    M.AsWrittenExtremesAreLastTexel(hm);
    var hmw := M.CalculateHeightDataAsWritten(hm).value;
    NormalsInside(hm, hmw);
    if hm.image.height > hm.image.width {
      G.AsWrittenDeepMapFails(hmw, G.SkirtDepth);
    } else {
      G.AsWrittenShallowMapBuilds(hmw, G.SkirtDepth);
    }
  }

  /** A renderable that is a heightmap loads. */
  predicate HeightmapLoads(c: Component, id: int) {
    c.CHeightmap? ==> LoadHeightmap(c.heightmap, id).Ok?
  }

  /** The renderable after loading: a heightmap in its loaded form, anything
      else as it was. */
  function Loaded(c: Component, id: int): Component
    requires HeightmapLoads(c, id)
  {
    if c.CHeightmap? then CHeightmap(LoadHeightmap(c.heightmap, id).value.0) else c
  }

  /** The terrains after loading `c`: the heightmap's terrain recorded under
      `id`, or nothing new. */
  function Recorded(terrains: map<int, Terrain>, c: Component, id: int): map<int, Terrain>
    requires HeightmapLoads(c, id)
  {
    if c.CHeightmap? then terrains[id := LoadHeightmap(c.heightmap, id).value.1] else terrains
  }

  /** One pass of the `foreach`: the renderable of `id` is fetched; a
      heightmap is loaded, replaced by its loaded form and its terrain
      recorded; anything else is skipped. */
  function LoadOne(r: R.Registry, id: int, terrains: map<int, Terrain>): (res: Result<(R.Registry, map<int, Terrain>)>)
    requires R.Valid(r)
    ensures res.Ok? <==> R.Stored(r, T3DRenderable, id) && HeightmapLoads(r.stores[T3DRenderable].entries[id], id)
    ensures !R.Stored(r, T3DRenderable, id) ==> res == Err(MissingKey)
    ensures res.Ok? ==> R.Valid(res.value.0) && res.value.0.entities == r.entities && res.value.0.counter == r.counter
    ensures res.Ok? ==> res.value.0.stores.Keys == r.stores.Keys
    ensures res.Ok? ==>
              var c := r.stores[T3DRenderable].entries[id];
              && R.GetComponentFromEntity(res.value.0, T3DRenderable, id) == Ok(Loaded(c, id))
              && res.value.1 == Recorded(terrains, c, id)
    ensures res.Ok? ==> forall t, k | (t, k) != (T3DRenderable, id) ::
              R.GetComponentFromEntity(res.value.0, t, k) == R.GetComponentFromEntity(r, t, k)
  {
    var c :- R.GetComponentFromEntity(r, T3DRenderable, id);
    if !c.CHeightmap? then Ok((r, terrains))
    else
      var loaded :- LoadHeightmap(c.heightmap, id);
      Ok((R.SetComponent(r, T3DRenderable, id, CHeightmap(loaded.0)), terrains[id := loaded.1]))
  }

  /** The `foreach` over the 3D renderables, in table order; the terrains
      built are collected under the heightmap's entity. */
  function LoadAll(r: R.Registry, ids: seq<int>, terrains: map<int, Terrain>): (res: Result<(R.Registry, map<int, Terrain>)>)
    requires R.Valid(r)
    ensures res.Ok? ==> R.Valid(res.value.0) && res.value.0.entities == r.entities && res.value.0.counter == r.counter
    ensures res.Ok? ==> res.value.0.stores.Keys == r.stores.Keys
    decreases |ids|
  {
    if |ids| == 0 then Ok((r, terrains))
    else
      var step :- LoadOne(r, ids[0], terrains);
      LoadAll(step.0, ids[1..], step.1)
  }

  /** `MapSystem.Load()`. */
  function Load(r: R.Registry): (res: Result<(R.Registry, map<int, Terrain>)>)
    requires R.Valid(r)
    ensures res.Ok? ==> R.Valid(res.value.0) && res.value.0.entities == r.entities
  {
    LoadAll(r, R.GetComponents(r, T3DRenderable).order, map[])
  }

  /** The tail of a duplicate-free sequence is duplicate-free and does not
      hold the head. */
  lemma DistinctTail(ids: seq<int>)
    requires |ids| > 0 && S.Distinct(ids)
    ensures S.Distinct(ids[1..]) && ids[0] !in ids[1..]
    ensures forall j | 0 <= j < |ids[1..]| :: ids[1..][j] == ids[j + 1]
  {
    var tail := ids[1..];
    forall i, j | 0 <= i < j < |tail| ensures tail[i] != tail[j] {
      assert tail[i] == ids[i + 1] && tail[j] == ids[j + 1];
    }
    forall j | 0 <= j < |tail| ensures tail[j] != ids[0] {
      assert tail[j] == ids[j + 1];
    }
  }

  /** Loading touches nothing but the renderables of the visited entities,
      and records terrains only for them. */
  lemma {:induction false} LoadAllOthers(r: R.Registry, ids: seq<int>, terrains: map<int, Terrain>)
    requires R.Valid(r) && LoadAll(r, ids, terrains).Ok?
    ensures var res := LoadAll(r, ids, terrains).value;
      && (forall t, k | k !in ids || t != T3DRenderable :: R.GetComponentFromEntity(res.0, t, k) == R.GetComponentFromEntity(r, t, k))
      && (forall k | k !in ids :: k in res.1 <==> k in terrains)
      && (forall k | k !in ids && k in terrains :: res.1[k] == terrains[k])
    decreases |ids|
  {
    if |ids| > 0 {
      var step := LoadOne(r, ids[0], terrains).value;
      LoadAllOthers(step.0, ids[1..], step.1);
      forall k | k !in ids ensures k !in ids[1..] && k != ids[0] {
      }
    }
  }

  /** Entity `k` has a renderable, and if it is a heightmap it loads. */
  predicate Loads(r: R.Registry, k: int) {
    R.Stored(r, T3DRenderable, k) && HeightmapLoads(r.stores[T3DRenderable].entries[k], k)
  }

  /** A step that leaves every renderable but the first id's alone leaves
      the later ids' `Loads` as it was. */
  lemma LoadsKept(r: R.Registry, r1: R.Registry, ids: seq<int>)
    requires |ids| > 0 && S.Distinct(ids)
    requires forall k | k != ids[0] :: R.GetComponentFromEntity(r1, T3DRenderable, k) == R.GetComponentFromEntity(r, T3DRenderable, k)
    ensures (forall j | 0 <= j < |ids| :: Loads(r, ids[j])) <==>
            Loads(r, ids[0]) && forall j | 0 <= j < |ids[1..]| :: Loads(r1, ids[1..][j])
  {
    forall j | 1 <= j < |ids| ensures Loads(r1, ids[j]) == Loads(r, ids[j]) {
      assert ids[j] != ids[0];
      assert R.GetComponentFromEntity(r1, T3DRenderable, ids[j]) == R.GetComponentFromEntity(r, T3DRenderable, ids[j]);
    }
    assert forall j | 0 <= j < |ids[1..]| :: ids[1..][j] == ids[j + 1];
  }

  /** Over distinct ids, loading succeeds exactly when each id has a
      renderable and every heightmap among them loads. */
  lemma {:induction false} LoadAllOk(r: R.Registry, ids: seq<int>, terrains: map<int, Terrain>)
    requires R.Valid(r) && S.Distinct(ids)
    ensures LoadAll(r, ids, terrains).Ok? <==> forall j | 0 <= j < |ids| :: Loads(r, ids[j])
    decreases |ids|
  {
    if |ids| > 0 {
      DistinctTail(ids);
      var one := LoadOne(r, ids[0], terrains);
      if one.Ok? {
        var step := one.value;
        LoadAllOk(step.0, ids[1..], step.1);
        LoadsKept(r, step.0, ids);
      }
    }
  }

  /** After a successful pass over distinct ids, each visited renderable is
      in its loaded form and each heightmap's terrain is recorded. */
  lemma {:induction false} LoadAllLoaded(r: R.Registry, ids: seq<int>, terrains: map<int, Terrain>)
    requires R.Valid(r) && S.Distinct(ids) && LoadAll(r, ids, terrains).Ok?
    ensures forall j | 0 <= j < |ids| :: R.Stored(r, T3DRenderable, ids[j]) && HeightmapLoads(r.stores[T3DRenderable].entries[ids[j]], ids[j])
    ensures var res := LoadAll(r, ids, terrains).value;
      forall j | 0 <= j < |ids| && R.Stored(r, T3DRenderable, ids[j]) ::
        var c := r.stores[T3DRenderable].entries[ids[j]];
        && R.GetComponentFromEntity(res.0, T3DRenderable, ids[j]) == Ok(Loaded(c, ids[j]))
        && (c.CHeightmap? ==> ids[j] in res.1 && res.1[ids[j]] == LoadHeightmap(c.heightmap, ids[j]).value.1)
    decreases |ids|
  {
    LoadAllOk(r, ids, terrains);
    if |ids| > 0 {
      DistinctTail(ids);
      var id := ids[0];
      var c := r.stores[T3DRenderable].entries[id];
      var step := LoadOne(r, id, terrains).value;
      var res := LoadAll(r, ids, terrains).value;
      assert res == LoadAll(step.0, ids[1..], step.1).value;
      LoadAllLoaded(step.0, ids[1..], step.1);
      LoadAllOthers(step.0, ids[1..], step.1);
      forall j | 0 <= j < |ids|
        ensures var c := r.stores[T3DRenderable].entries[ids[j]];
          && R.GetComponentFromEntity(res.0, T3DRenderable, ids[j]) == Ok(Loaded(c, ids[j]))
          && (c.CHeightmap? ==> ids[j] in res.1 && res.1[ids[j]] == LoadHeightmap(c.heightmap, ids[j]).value.1)
      {
        if j == 0 {
          assert R.GetComponentFromEntity(res.0, T3DRenderable, id) == R.GetComponentFromEntity(step.0, T3DRenderable, id);
        } else {
          assert ids[j] == ids[1..][j - 1] && ids[j] != id;
          assert R.GetComponentFromEntity(step.0, T3DRenderable, ids[j]) == R.GetComponentFromEntity(r, T3DRenderable, ids[j]);
          assert step.0.stores[T3DRenderable].entries[ids[j]] == r.stores[T3DRenderable].entries[ids[j]];
        }
      }
    }
  }

  /** `Load` over a valid registry: every renderable is visited once;
      loading succeeds exactly when each heightmap loads, and then each
      heightmap carries its model and terrain, other renderables and every
      other component are kept. */
  lemma LoadEffect(r: R.Registry)
    requires R.Valid(r) && T3DRenderable in r.stores
    ensures var st := r.stores[T3DRenderable];
      Load(r).Ok? <==> forall id | id in st.entries :: HeightmapLoads(st.entries[id], id)
    ensures var st := r.stores[T3DRenderable];
      Load(r).Ok? ==>
        var res := Load(r).value;
        && (forall id | id in st.entries :: R.GetComponentFromEntity(res.0, T3DRenderable, id) == Ok(Loaded(st.entries[id], id)))
        && (forall id | id in st.entries && st.entries[id].CHeightmap? ::
              id in res.1 && res.1[id] == LoadHeightmap(st.entries[id].heightmap, id).value.1)
        && (forall t, k | t != T3DRenderable :: R.GetComponentFromEntity(res.0, t, k) == R.GetComponentFromEntity(r, t, k))
  {
    var st := r.stores[T3DRenderable];
    var ids := st.order;
    assert R.GetComponents(r, T3DRenderable) == st;
    LoadAllOk(r, ids, map[]);
    if Load(r).Ok? {
      LoadAllLoaded(r, ids, map[]);
      LoadAllOthers(r, ids, map[]);
    } else {
      var j :| 0 <= j < |ids| && !(R.Stored(r, T3DRenderable, ids[j]) && HeightmapLoads(st.entries[ids[j]], ids[j]));
      assert ids[j] in st.entries;
    }
    forall id | id in st.entries ensures exists j :: 0 <= j < |ids| && ids[j] == id {
      assert id in ids;
    }
  }
}
