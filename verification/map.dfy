/** `MapSystem` (`Systems/MapSystem.cs`): turns a heightmap image into a
    terrain of 20 by 20 chunks (each a grid of vertices with its triangle
    index list) plus a ground skirt around the map. Only the integer and
    lookup rules are modelled; the GPU buffers and normals are not. */
module Map {
  import opened Wrappers
  import opened Vectors
  import opened Components
  import opened Mesh

  /** `chunksplit`: the map is cut into this many chunks along each axis. */
  const ChunkSplit: int := 20

  /** The number of chunks, and of keys in each chunk dictionary. */
  const ChunkCount: int := ChunkSplit * ChunkSplit

  /** `materialPick`: the green channel picks the vertex colour. */
  function MaterialPick(code: int): (c: Color)
    ensures c == Brown <==> code == 255
    ensures c == Yellow <==> code == 240
    ensures c == Pink <==> code != 255 && code != 240
  {
    match code
    case 255 => Brown
    case 250 => Pink
    case 240 => Yellow
    case _ => Pink
  }

  // ---------------------------------------------------------------------
  // Index chunks

  /** The index array `CreateIndicesChunk` builds for an image `width` by
      `height` texels: the chunk grid is `width / 20` by `height / 20`
      vertices. A negative array size is an error; when the loops do not
      run the array keeps its zero entries. */
  function ChunkIndices(width: nat, height: nat): (r: Result<seq<int>>)
    ensures var w := width / ChunkSplit; var h := height / ChunkSplit;
      && (r.Err? <==> (w - 1) * (h - 1) < 0)
      && (r.Err? ==> r.error == NegativeSize)
      && (r.Ok? ==> |r.value| == (w - 1) * (h - 1) * 6)
  {
    var w := width / ChunkSplit;
    var h := height / ChunkSplit;
    var size := (w - 1) * (h - 1) * 6;
    if size < 0 then Err(NegativeSize)
    else if w >= 1 && h >= 1 then
      GridLayout(w, h);
      Ok(TriangleGrid(w, h))
    else Ok(seq(size, _ => 0))
  }

  /** For an image at least 20 texels each way the chunk array is the
      triangulated grid: every entry names one of the chunk's `w * h`
      vertices, and cell `(x, y)` occupies positions `6 * (x + y * (w - 1))`
      onward. */
  lemma ChunkIndicesGrid(width: nat, height: nat)
    requires width >= ChunkSplit && height >= ChunkSplit
    ensures var w := width / ChunkSplit; var h := height / ChunkSplit;
      && ChunkIndices(width, height).Ok?
      && (forall j | 0 <= j < |ChunkIndices(width, height).value| ::
            0 <= ChunkIndices(width, height).value[j] < w * h)
      && CellsLaid(ChunkIndices(width, height).value, w, h)
  {
    var w := width / ChunkSplit;
    var h := height / ChunkSplit;
    assert w >= 1 && h >= 1;
    assert (w - 1) * (h - 1) >= 0;
    var ix := TriangleGrid(w, h);
    assert ChunkIndices(width, height) == Ok(ix);
    GridInRange(w, h);
    GridLayout(w, h);
  }

  /** The degenerate sizes: an image under 20 texels in both directions
      gives six zero indices (one phantom cell), and one under 20 texels
      wide but at least 40 high makes the array size negative. */
  lemma ChunkIndicesSmallImages(width: nat, height: nat)
    ensures width < ChunkSplit && height < ChunkSplit ==> ChunkIndices(width, height) == Ok([0, 0, 0, 0, 0, 0])
    ensures width < ChunkSplit && height >= 2 * ChunkSplit ==> ChunkIndices(width, height) == Err(NegativeSize)
  {
    if width < ChunkSplit && height < ChunkSplit {
      assert width / ChunkSplit == 0 && height / ChunkSplit == 0;
      assert ChunkIndices(width, height) == Ok(seq(6, _ => 0));
      assert seq(6, _ => 0) == [0, 0, 0, 0, 0, 0];
    }
    if width < ChunkSplit && height >= 2 * ChunkSplit {
      assert width / ChunkSplit == 0 && height / ChunkSplit >= 2;
    }
  }

  /** `CreateIndicesChunk(heightMap, ref indicesdict, counter)`: adds the
      chunk array under `counter` (failing if the key is taken) and recurses
      while `counter + 1 < 400`. */
  function CreateIndicesChunks(width: nat, height: nat, dict: map<int, seq<int>>, counter: int): (r: Result<map<int, seq<int>>>)
    ensures r.Ok? ==> ChunkIndices(width, height).Ok?
    decreases ChunkCount - counter
  {
    var indices :- ChunkIndices(width, height);
    if counter in dict then Err(DuplicateKey)
    else
      var d := dict[counter := indices];
      if counter + 1 < ChunkCount then CreateIndicesChunks(width, height, d, counter + 1)
      else Ok(d)
  }

  /** From any counter below 400 over keys that are all smaller, the
      recursion adds exactly the keys `counter` to 399, each mapping to the
      chunk array, and keeps the existing entries. */
  lemma {:induction false} CreateIndicesChunksKeys(width: nat, height: nat, dict: map<int, seq<int>>, counter: int)
    requires 0 <= counter < ChunkCount
    requires forall k | k in dict :: k < counter
    ensures CreateIndicesChunks(width, height, dict, counter).Ok? <==> ChunkIndices(width, height).Ok?
    ensures CreateIndicesChunks(width, height, dict, counter).Ok? ==>
              var d := CreateIndicesChunks(width, height, dict, counter).value;
              && (forall k :: k in d <==> k in dict || counter <= k < ChunkCount)
              && (forall k | counter <= k < ChunkCount :: d[k] == ChunkIndices(width, height).value)
              && (forall k | k in dict :: d[k] == dict[k])
    decreases ChunkCount - counter
  {
    if ChunkIndices(width, height).Ok? {
      var d := dict[counter := ChunkIndices(width, height).value];
      if counter + 1 < ChunkCount {
        CreateIndicesChunksKeys(width, height, d, counter + 1);
      }
    }
  }

  /** `Load`'s call from counter 0 with an empty dictionary: keys 0 to 399,
      all mapping to the same array. */
  lemma IndicesFromZero(width: nat, height: nat)
    ensures CreateIndicesChunks(width, height, map[], 0).Ok? <==> ChunkIndices(width, height).Ok?
    ensures CreateIndicesChunks(width, height, map[], 0).Ok? ==>
              var d := CreateIndicesChunks(width, height, map[], 0).value;
              && (forall k :: k in d <==> 0 <= k < ChunkCount)
              && forall k | k in d :: d[k] == ChunkIndices(width, height).value
  {
    CreateIndicesChunksKeys(width, height, map[], 0);
  }

  // ---------------------------------------------------------------------
  // Height data and extremes

  /** `Texture2D.GetData` fills exactly `width * height` texels; a texture
      whose data does not have that size cannot be read. */
  predicate WellFormed(img: Image) {
    |img.pixels| == img.width * img.height
  }

  /** An image at least one texel wide and deep has a texel. */
  lemma PixelsNonEmpty(img: Image)
    requires WellFormed(img) && img.width >= 1 && img.height >= 1
    ensures |img.pixels| > 0
  {
  }

  /** Colour channels are bytes. */
  predicate Bytes(img: Image) {
    forall p | p in img.pixels :: 0 <= p.r <= 255 && 0 <= p.g <= 255
  }

  /** `HeightData[x, y] = colorMap[x + y * W]`, stored as `hd[x][y]`. */
  function HeightData(img: Image): (hd: seq<seq<Pixel>>)
    requires WellFormed(img)
    ensures |hd| == img.width && forall x | 0 <= x < |hd| :: |hd[x]| == img.height
  {
    seq(img.width, x requires 0 <= x < img.width =>
      seq(img.height, y requires 0 <= y < img.height =>
        IndexInGrid(x, y, img.width, img.height);
        img.pixels[x + y * img.width]))
  }

  /** Texel `x + y * W` of the image is `HeightData[x, y]`. */
  lemma HeightDataAt(img: Image, x: int, y: int)
    requires WellFormed(img) && 0 <= x < img.width && 0 <= y < img.height
    ensures 0 <= x + y * img.width < |img.pixels| && HeightData(img)[x][y] == img.pixels[x + y * img.width]
  {
    IndexInGrid(x, y, img.width, img.height);
  }

  /** No texel is lost: texel `i` is found at `HeightData[i % W, i / W]`. */
  lemma HeightDataCovers(img: Image, i: int)
    requires WellFormed(img) && 0 <= i < |img.pixels|
    ensures img.width > 0 && 0 <= i / img.width < img.height
    ensures HeightData(img)[i % img.width][i / img.width] == img.pixels[i]
  {
    DivInGrid(i, img.width, img.height);
    IndexInGrid(i % img.width, i / img.width, img.width, img.height);
  }

  /** Every part's entries are entries of the flattening, and nothing else
      is. */
  lemma {:induction false} FlattenMembers<T>(parts: seq<seq<T>>, e: T)
    ensures e in Flatten(parts) <==> exists i | 0 <= i < |parts| :: e in parts[i]
    decreases |parts|
  {
    if |parts| > 0 {
      var init := parts[..|parts| - 1];
      FlattenMembers(init, e);
      assert Flatten(parts) == Flatten(init) + parts[|parts| - 1];
      if e in Flatten(init) {
        var i :| 0 <= i < |init| && e in init[i];
        assert parts[i] == init[i];
      }
      if exists i | 0 <= i < |parts| :: e in parts[i] {
        var i :| 0 <= i < |parts| && e in parts[i];
        if i < |init| {
          assert init[i] == parts[i];
        }
      }
    }
  }

  /** Every texel of the image is in the grid. */
  lemma TexelInGrid(img: Image, i: int)
    requires WellFormed(img) && 0 <= i < |img.pixels|
    ensures img.pixels[i] in Flatten(HeightData(img))
  {
    HeightDataCovers(img, i);
    FlattenMembers(HeightData(img), img.pixels[i]);
  }

  /** Every grid entry is a texel of the image. */
  lemma GridTexel(img: Image, p: Pixel)
    requires WellFormed(img) && p in Flatten(HeightData(img))
    ensures p in img.pixels
  {
    var hd := HeightData(img);
    FlattenMembers(hd, p);
    var x :| 0 <= x < |hd| && p in hd[x];
    var y :| 0 <= y < |hd[x]| && hd[x][y] == p;
    IndexInGrid(x, y, img.width, img.height);
  }

  /** The grid holds exactly the image's texels. */
  lemma HeightDataMembers(img: Image, p: Pixel)
    requires WellFormed(img)
    ensures p in Flatten(HeightData(img)) <==> p in img.pixels
  {
    if p in img.pixels {
      var i :| 0 <= i < |img.pixels| && img.pixels[i] == p;
      TexelInGrid(img, i);
    }
    if p in Flatten(HeightData(img)) {
      GridTexel(img, p);
    }
  }

  /** The texels in the order the extremes loop visits them: `x` outer,
      `y` inner. */
  function ScanOrder(img: Image): (ts: seq<Pixel>)
    requires WellFormed(img)
    ensures forall p :: p in ts <==> p in img.pixels
  {
    forall p ensures p in Flatten(HeightData(img)) <==> p in img.pixels {
      HeightDataMembers(img, p);
    }
    Flatten(HeightData(img))
  }

  /** The last texel the loop visits is the image's last, `(W - 1, H - 1)`. */
  lemma ScanOrderLast(img: Image)
    requires WellFormed(img) && img.width >= 1 && img.height >= 1
    ensures |ScanOrder(img)| > 0 && ScanOrder(img)[|ScanOrder(img)| - 1] == img.pixels[|img.pixels| - 1]
  {
    var w := img.width;
    var h := img.height;
    var hd := HeightData(img);
    var last := hd[w - 1];
    assert Flatten(hd) == Flatten(hd[..w - 1]) + last;
    assert (h - 1) * w == w * h - w;
    assert last[h - 1] == img.pixels[(w - 1) + (h - 1) * w];
  }

  /** The extremes loop as written: the running bounds `minHeight` and
      `maxHeight` are compared against but never assigned, so they stay at
      the sentinels, every texel overwrites `LowestPoint` and every texel
      overwrites `HeighestPoint`. */
  function ScanAsWritten(ts: seq<Pixel>, lowest: real, highest: real): (r: (real, real))
    decreases |ts|
  {
    if |ts| == 0 then (lowest, highest)
    else
      var red := ts[0].r as real;
      ScanAsWritten(ts[1..], if red < FloatMax then red else lowest, if red > FloatMin then red else highest)
  }

  /** As written, both extremes end up as the red value of the last texel
      visited, whatever the others hold. */
  lemma {:induction false} ScanAsWrittenTakesLast(ts: seq<Pixel>, lowest: real, highest: real)
    requires |ts| > 0 && forall p | p in ts :: 0 <= p.r <= 255
    ensures ScanAsWritten(ts, lowest, highest) == (ts[|ts| - 1].r as real, ts[|ts| - 1].r as real)
    decreases |ts|
  {
    var red := ts[0].r as real;
    if |ts| > 1 {
      assert forall p | p in ts[1..] :: p in ts;
      ScanAsWrittenTakesLast(ts[1..], red, red);
      assert ts[1..][|ts[1..]| - 1] == ts[|ts| - 1];
    }
  }

  /** The extremes loop as evidently intended: a texel below the running
      minimum becomes both the running minimum and `LowestPoint`, and
      likewise for the maximum. */
  function Scan(ts: seq<Pixel>, lowest: real, highest: real, minHeight: real, maxHeight: real): (r: (real, real))
    decreases |ts|
  {
    if |ts| == 0 then (lowest, highest)
    else
      var red := ts[0].r as real;
      var lower := red < minHeight;
      var higher := red > maxHeight;
      Scan(ts[1..], if lower then red else lowest, if higher then red else highest,
           if lower then red else minHeight, if higher then red else maxHeight)
  }

  /** `LowestPoint` ends as the smallest red value below the starting bound
      (one of the texels' and no larger than any), or unchanged when there
      is none. */
  lemma {:induction false} ScanLowest(ts: seq<Pixel>, lowest: real, highest: real, minHeight: real, maxHeight: real)
    ensures var lo := Scan(ts, lowest, highest, minHeight, maxHeight).0;
      && ((forall p | p in ts :: minHeight <= p.r as real) ==> lo == lowest)
      && ((exists p | p in ts :: p.r as real < minHeight) ==>
            (exists p | p in ts :: p.r as real == lo) && forall p | p in ts :: lo <= p.r as real)
    decreases |ts|
  {
    if |ts| > 0 {
      var red := ts[0].r as real;
      var lower := red < minHeight;
      var higher := red > maxHeight;
      var tail := ts[1..];
      var lo1 := if lower then red else lowest;
      var hi1 := if higher then red else highest;
      var mn1 := if lower then red else minHeight;
      var mx1 := if higher then red else maxHeight;
      ScanLowest(tail, lo1, hi1, mn1, mx1);
      var lo := Scan(ts, lowest, highest, minHeight, maxHeight).0;
      assert lo == Scan(tail, lo1, hi1, mn1, mx1).0;
      assert forall p | p in ts :: p == ts[0] || p in tail;
      assert forall p | p in tail :: p in ts;
      if exists p | p in tail :: p.r as real < mn1 {
        var q :| q in tail && q.r as real == lo;
        assert q in ts;
      } else if lower {
        assert lo == red;
        assert ts[0] in ts;
      }
    }
  }

  /** `HeighestPoint` likewise ends as the largest red value above the
      starting bound, or unchanged when there is none. */
  lemma {:induction false} ScanHighest(ts: seq<Pixel>, lowest: real, highest: real, minHeight: real, maxHeight: real)
    ensures var hi := Scan(ts, lowest, highest, minHeight, maxHeight).1;
      && ((forall p | p in ts :: p.r as real <= maxHeight) ==> hi == highest)
      && ((exists p | p in ts :: p.r as real > maxHeight) ==>
            (exists p | p in ts :: p.r as real == hi) && forall p | p in ts :: p.r as real <= hi)
    decreases |ts|
  {
    if |ts| > 0 {
      var red := ts[0].r as real;
      var lower := red < minHeight;
      var higher := red > maxHeight;
      var tail := ts[1..];
      var lo1 := if lower then red else lowest;
      var hi1 := if higher then red else highest;
      var mn1 := if lower then red else minHeight;
      var mx1 := if higher then red else maxHeight;
      ScanHighest(tail, lo1, hi1, mn1, mx1);
      var hi := Scan(ts, lowest, highest, minHeight, maxHeight).1;
      assert hi == Scan(tail, lo1, hi1, mn1, mx1).1;
      assert forall p | p in ts :: p == ts[0] || p in tail;
      assert forall p | p in tail :: p in ts;
      if exists p | p in tail :: p.r as real > mx1 {
        var q :| q in tail && q.r as real == hi;
        assert q in ts;
      } else if higher {
        assert hi == red;
        assert ts[0] in ts;
      }
    }
  }

  /** `CalculateHeightData` as written. */
  function CalculateHeightDataAsWritten(hm: Heightmap): (r: Result<Heightmap>)
    ensures r.Ok? <==> WellFormed(hm.image)
    ensures r.Ok? ==> r.value.image == hm.image && r.value.heightData == HeightData(hm.image)
  {
    if !WellFormed(hm.image) then Err(IndexOutOfRange)
    else
      var ext := ScanAsWritten(ScanOrder(hm.image), hm.lowest, hm.highest);
      Ok(hm.(heightData := HeightData(hm.image), lowest := ext.0, highest := ext.1))
  }

  /** As written, for any non-empty image both extremes are the red value
      of the bottom-right texel. */
  lemma AsWrittenExtremesAreLastTexel(hm: Heightmap)
    requires WellFormed(hm.image) && Bytes(hm.image) && hm.image.width >= 1 && hm.image.height >= 1
    ensures var last := hm.image.pixels[|hm.image.pixels| - 1].r as real;
      CalculateHeightDataAsWritten(hm).Ok? &&
      CalculateHeightDataAsWritten(hm).value.lowest == last &&
      CalculateHeightDataAsWritten(hm).value.highest == last
  {
    var ts := ScanOrder(hm.image);
    ScanOrderLast(hm.image);
    ScanAsWrittenTakesLast(ts, hm.lowest, hm.highest);
  }

  /** The two-texel image with red values 0 and 255: as written its lowest
      point comes out as 255. */
  lemma AsWrittenMissesMinimum()
    ensures var hm := Heightmap(Image(2, 1, [Pixel(0, 0), Pixel(255, 0)]), [], 0.0, 0.0, None);
      CalculateHeightDataAsWritten(hm).Ok? && CalculateHeightDataAsWritten(hm).value.lowest == 255.0
  {
    var hm := Heightmap(Image(2, 1, [Pixel(0, 0), Pixel(255, 0)]), [], 0.0, 0.0, None);
    AsWrittenExtremesAreLastTexel(hm);
  }

  /** `CalculateHeightData` with the running bounds updated. */
  function CalculateHeightData(hm: Heightmap): (r: Result<Heightmap>)
    ensures r.Ok? <==> WellFormed(hm.image)
    ensures r.Ok? ==> r.value == hm.(heightData := r.value.heightData, lowest := r.value.lowest, highest := r.value.highest)
    ensures r.Ok? ==> r.value.heightData == HeightData(hm.image)
  {
    if !WellFormed(hm.image) then Err(IndexOutOfRange)
    else
      var ext := Scan(ScanOrder(hm.image), hm.lowest, hm.highest, FloatMax, FloatMin);
      Ok(hm.(heightData := HeightData(hm.image), lowest := ext.0, highest := ext.1))
  }

  /** For a non-empty image the extremes are the smallest and largest red
      values of its texels; an empty image keeps the old values. */
  lemma HeightExtremes(hm: Heightmap)
    requires WellFormed(hm.image) && Bytes(hm.image)
    ensures var r := CalculateHeightData(hm).value;
      && (|hm.image.pixels| > 0 ==>
            && (exists p | p in hm.image.pixels :: p.r as real == r.lowest)
            && (forall p | p in hm.image.pixels :: r.lowest <= p.r as real)
            && (exists p | p in hm.image.pixels :: p.r as real == r.highest)
            && (forall p | p in hm.image.pixels :: p.r as real <= r.highest))
      && (|hm.image.pixels| == 0 ==> r.lowest == hm.lowest && r.highest == hm.highest)
  {
    var ts := ScanOrder(hm.image);
    ScanLowest(ts, hm.lowest, hm.highest, FloatMax, FloatMin);
    ScanHighest(ts, hm.lowest, hm.highest, FloatMax, FloatMin);
    if |hm.image.pixels| > 0 {
      assert hm.image.pixels[0] in ts;
    } else {
      assert |ts| == 0;
    }
  }

  /** On the two-texel image the corrected scan finds 0 and 255. */
  lemma CorrectedFindsMinimum()
    ensures var hm := Heightmap(Image(2, 1, [Pixel(0, 0), Pixel(255, 0)]), [], 0.0, 0.0, None);
      CalculateHeightData(hm).Ok? &&
      CalculateHeightData(hm).value.lowest == 0.0 && CalculateHeightData(hm).value.highest == 255.0
  {
    var hm := Heightmap(Image(2, 1, [Pixel(0, 0), Pixel(255, 0)]), [], 0.0, 0.0, None);
    HeightExtremes(hm);
    var r := CalculateHeightData(hm).value;
    assert hm.image.pixels[0] in hm.image.pixels && hm.image.pixels[1] in hm.image.pixels;
    var p :| p in hm.image.pixels && p.r as real == r.lowest;
    var q :| q in hm.image.pixels && q.r as real == r.highest;
  }

  // ---------------------------------------------------------------------
  // Vertex chunks

  /** The `yOffset` of chunk `k`: `h * (k % 20)`, less `k % 20` when that
      is positive. */
  function YOffset(k: nat, h: nat): (yo: int)
  {
    var j := k % ChunkSplit;
    var yo := h * j;
    if yo > 0 then yo - j else yo
  }

  /** Chunk `k`'s column: the `xOffset` the recursion has reached at chunk
      `k`, which grows by `w - 1` at every non-zero multiple of 20. */
  function XOffset(k: nat, w: nat): (xo: int)
  {
    (k / ChunkSplit) * (w - 1)
  }

  /** The chunks of one column stack `h - 1` apart, those of one row sit
      `w - 1` apart, so neighbouring chunks share their border row or
      column. */
  lemma OffsetSteps(k: nat, w: nat, h: nat)
    ensures h >= 1 ==> YOffset(k, h) == (h - 1) * (k % ChunkSplit)
    ensures h >= 1 && k % ChunkSplit < ChunkSplit - 1 ==> YOffset(k + 1, h) == YOffset(k, h) + (h - 1)
    ensures XOffset(k + ChunkSplit, w) == XOffset(k, w) + (w - 1)
    ensures k % ChunkSplit < ChunkSplit - 1 ==> XOffset(k + 1, w) == XOffset(k, w)
  {
    var j := k % ChunkSplit;
    if h >= 1 {
      assert h * j - j == (h - 1) * j;
      if j < ChunkSplit - 1 {
        assert (k + 1) % ChunkSplit == j + 1;
        assert (h - 1) * (j + 1) == (h - 1) * j + (h - 1);
      }
    }
    assert (k + ChunkSplit) / ChunkSplit == k / ChunkSplit + 1;
    assert (k / ChunkSplit + 1) * (w - 1) == (k / ChunkSplit) * (w - 1) + (w - 1);
    if j < ChunkSplit - 1 {
      assert (k + 1) / ChunkSplit == k / ChunkSplit;
    }
  }

  /** The texel `(gx, gy)` exists. */
  predicate InMap(hd: seq<seq<Pixel>>, gx: int, gy: int) {
    0 <= gx < |hd| && 0 <= gy < |hd[gx]|
  }

  /** Chunk-local `(x, y)` of a chunk at `(xo, yo)` is inside the map. */
  predicate InMapAt(hd: seq<seq<Pixel>>, xo: int, yo: int, x: int, y: int) {
    InMap(hd, x + xo, y + yo)
  }

  /** The vertex for texel `(gx, gy)`: at `(gx, red, gy)`, coloured by the
      green channel (normals are not computed here). */
  function TerrainVertex(hd: seq<seq<Pixel>>, gx: int, gy: int): (v: Vertex)
    requires InMap(hd, gx, gy)
  {
    Vertex(Vec3(gx as real, hd[gx][gy].r as real, gy as real), Zero, MaterialPick(hd[gx][gy].g))
  }

  /** The vertex of chunk-local `(x, y)` for a chunk at `(xo, yo)`; the
      pink fallback is never used once every covered texel exists. */
  function TexelAt(hd: seq<seq<Pixel>>, xo: int, yo: int): (f: (int, int) -> Vertex)
    ensures forall x, y | InMap(hd, x + xo, y + yo) :: f(x, y) == TerrainVertex(hd, x + xo, y + yo)
  {
    (x, y) => if InMap(hd, x + xo, y + yo) then TerrainVertex(hd, x + xo, y + yo) else Vertex(Zero, Zero, Pink)
  }

  /** The vertex array of a `w` by `h` chunk at `(xo, yo)`: every texel it
      covers must exist. */
  function ChunkVertices(hd: seq<seq<Pixel>>, w: nat, h: nat, xo: int, yo: int): (r: Result<seq<Vertex>>)
    ensures r.Ok? <==> forall x, y | 0 <= x < w && 0 <= y < h :: InMapAt(hd, xo, yo, x, y)
    ensures r.Err? ==> r.error == IndexOutOfRange
    ensures r.Ok? ==> |r.value| == w * h
  {
    if forall x, y | 0 <= x < w && 0 <= y < h :: InMapAt(hd, xo, yo, x, y) then
      Ok(Lattice(w, h, TexelAt(hd, xo, yo)))
    else Err(IndexOutOfRange)
  }

  /** Vertex `x + y * w` of a chunk is the one for texel `(x + xo, y + yo)`:
      at that position, with its red channel as height and its green
      channel's material. */
  lemma ChunkVertexAt(hd: seq<seq<Pixel>>, w: nat, h: nat, xo: int, yo: int, x: int, y: int)
    requires ChunkVertices(hd, w, h, xo, yo).Ok? && 0 <= x < w && 0 <= y < h
    ensures InMap(hd, x + xo, y + yo)
    ensures 0 <= x + y * w < w * h
    ensures var v := ChunkVertices(hd, w, h, xo, yo).value[x + y * w];
      && v.position == Vec3((x + xo) as real, hd[x + xo][y + yo].r as real, (y + yo) as real)
      && v.color == MaterialPick(hd[x + xo][y + yo].g)
  {
    assert InMapAt(hd, xo, yo, x, y);
    LatticeAt(w, h, TexelAt(hd, xo, yo), x, y);
    assert TexelAt(hd, xo, yo)(x, y) == TerrainVertex(hd, x + xo, y + yo);
  }

  /** The recursion of `CreateVerticesChunks`, over the chunk builder
      `build(k, xOffset)`: at every non-zero multiple of 20 the offset
      moves on by `step`, the chunk is built and added under `k` (failing
      if the key is taken), and the recursion continues while
      `k + 1 < 400`. */
  function ChunkLoop<T>(build: (nat, int) -> Result<T>, step: int, dict: map<int, T>, k: nat, xOffset: int)
    : (r: Result<map<int, T>>)
    decreases ChunkCount - k
  {
    var xo := if k % ChunkSplit == 0 && k != 0 then xOffset + step else xOffset;
    var chunk :- build(k, xo);
    if k in dict then Err(DuplicateKey)
    else
      var d := dict[k := chunk];
      if k + 1 < ChunkCount then ChunkLoop(build, step, d, k + 1, xo)
      else Ok(d)
  }

  /** The offset the loop reaches at chunk `k`. */
  function Offset(k: nat, step: int): int {
    (k / ChunkSplit) * step
  }

  /** The offset carried into call `k` is that of chunk `k - 1`, and the
      call moves it on to that of chunk `k`. */
  lemma OffsetCarried(k: nat, step: int)
    requires k >= 1
    ensures k % ChunkSplit == 0 ==> Offset(k - 1, step) + step == Offset(k, step)
    ensures k % ChunkSplit != 0 ==> Offset(k - 1, step) == Offset(k, step)
  {
    if k % ChunkSplit == 0 {
      assert (k - 1) / ChunkSplit + 1 == k / ChunkSplit;
      assert ((k - 1) / ChunkSplit + 1) * step == ((k - 1) / ChunkSplit) * step + step;
    } else {
      assert (k - 1) / ChunkSplit == k / ChunkSplit;
    }
  }

  /** One call of the loop, with the offset of chunk `k - 1` carried in. */
  lemma ChunkLoopUnfold<T>(build: (nat, int) -> Result<T>, step: int, dict: map<int, T>, k: nat, xOffset: int)
    requires k < ChunkCount
    requires xOffset == if k == 0 then 0 else Offset(k - 1, step)
    ensures build(k, Offset(k, step)).Err? ==> ChunkLoop(build, step, dict, k, xOffset).Err?
    ensures k in dict ==> ChunkLoop(build, step, dict, k, xOffset).Err?
    ensures build(k, Offset(k, step)).Ok? && k !in dict ==>
              var d := dict[k := build(k, Offset(k, step)).value];
              ChunkLoop(build, step, dict, k, xOffset) ==
              if k + 1 < ChunkCount then ChunkLoop(build, step, d, k + 1, Offset(k, step)) else Ok(d)
  {
    if k >= 1 {
      OffsetCarried(k, step);
    }
  }

  /** From call `k` over smaller keys, the loop succeeds iff every
      remaining chunk can be built at its offset. */
  lemma {:induction false} ChunkLoopOk<T>(build: (nat, int) -> Result<T>, step: int, dict: map<int, T>, k: nat, xOffset: int)
    requires k < ChunkCount
    requires forall j | j in dict :: j < k
    requires xOffset == if k == 0 then 0 else Offset(k - 1, step)
    ensures ChunkLoop(build, step, dict, k, xOffset).Ok? <==>
              forall j: nat | k <= j < ChunkCount :: build(j, Offset(j, step)).Ok?
    decreases ChunkCount - k
  {
    ChunkLoopUnfold(build, step, dict, k, xOffset);
    if build(k, Offset(k, step)).Ok? && k + 1 < ChunkCount {
      var d := dict[k := build(k, Offset(k, step)).value];
      ChunkLoopOk(build, step, d, k + 1, Offset(k, step));
    }
  }

  /** After a successful call `k`, each chunk `j` from `k` to 399 is under
      key `j`, built at its offset, and the existing entries are kept. */
  lemma {:induction false} ChunkLoopKeys<T>(build: (nat, int) -> Result<T>, step: int, dict: map<int, T>, k: nat, xOffset: int)
    requires k < ChunkCount
    requires forall j | j in dict :: j < k
    requires xOffset == if k == 0 then 0 else Offset(k - 1, step)
    requires ChunkLoop(build, step, dict, k, xOffset).Ok?
    ensures var d := ChunkLoop(build, step, dict, k, xOffset).value;
      && (forall j :: j in d <==> j in dict || k <= j < ChunkCount)
      && (forall j: nat | k <= j < ChunkCount :: build(j, Offset(j, step)).Ok? && d[j] == build(j, Offset(j, step)).value)
      && (forall j | j in dict :: d[j] == dict[j])
    decreases ChunkCount - k
  {
    ChunkLoopUnfold(build, step, dict, k, xOffset);
    var chunk := build(k, Offset(k, step));
    var d := dict[k := chunk.value];
    var res := ChunkLoop(build, step, dict, k, xOffset).value;
    if k + 1 < ChunkCount {
      assert ChunkLoop(build, step, dict, k, xOffset) == ChunkLoop(build, step, d, k + 1, Offset(k, step));
      ChunkLoopKeys(build, step, d, k + 1, Offset(k, step));
      forall j ensures j in res <==> j in dict || k <= j < ChunkCount {
      }
      forall j: nat | k <= j < ChunkCount ensures build(j, Offset(j, step)).Ok? && res[j] == build(j, Offset(j, step)).value {
        if j == k {
          assert res[k] == d[k];
        }
      }
      forall j | j in dict ensures res[j] == dict[j] {
        assert res[j] == d[j];
      }
    } else {
      assert res == d;
    }
  }

  /** `CreateVerticesChunks(cheightmap, ref vertexdict, counter, xOffset)`:
      the loop over chunk vertex arrays, moving `w - 1` columns on at each
      new column of chunks. */
  function CreateVerticesChunks(hd: seq<seq<Pixel>>, w: nat, h: nat, dict: map<int, seq<Vertex>>, k: nat, xOffset: int)
    : (r: Result<map<int, seq<Vertex>>>)
  {
    ChunkLoop((k: nat, xo: int) => ChunkVertices(hd, w, h, xo, YOffset(k, h)), w - 1, dict, k, xOffset)
  }

  /** The chunk `k` sits at `(XOffset(k, w), YOffset(k, h))`. */
  function ChunkAt(hd: seq<seq<Pixel>>, w: nat, h: nat, k: nat): (r: Result<seq<Vertex>>)
  {
    ChunkVertices(hd, w, h, XOffset(k, w), YOffset(k, h))
  }

  /** `Load`'s call from chunk 0 with offset 0: keys 0 to 399, chunk `k` at
      `(XOffset(k, w), YOffset(k, h))`. */
  lemma VerticesFromZero(hd: seq<seq<Pixel>>, w: nat, h: nat)
    ensures CreateVerticesChunks(hd, w, h, map[], 0, 0).Ok? <==> forall j: nat | j < ChunkCount :: ChunkAt(hd, w, h, j).Ok?
    ensures CreateVerticesChunks(hd, w, h, map[], 0, 0).Ok? ==>
              var d := CreateVerticesChunks(hd, w, h, map[], 0, 0).value;
              && (forall j :: j in d <==> 0 <= j < ChunkCount)
              && (forall j: nat | j < ChunkCount :: ChunkAt(hd, w, h, j).Ok? && d[j] == ChunkAt(hd, w, h, j).value)
  {
    var build := (k: nat, xo: int) => ChunkVertices(hd, w, h, xo, YOffset(k, h));
    var r := CreateVerticesChunks(hd, w, h, map[], 0, 0);
    assert r == ChunkLoop(build, w - 1, map[], 0, 0);
    forall j: nat ensures build(j, Offset(j, w - 1)) == ChunkAt(hd, w, h, j) {
      assert Offset(j, w - 1) == XOffset(j, w);
    }
    ChunkLoopOk(build, w - 1, map[], 0, 0);
    if r.Ok? {
      ChunkLoopKeys(build, w - 1, map[], 0, 0);
      forall j: nat | j < ChunkCount ensures ChunkAt(hd, w, h, j).Ok? {
        assert build(j, Offset(j, w - 1)).Ok?;
      }
    } else {
      var j: nat :| j < ChunkCount && !build(j, Offset(j, w - 1)).Ok?;
      assert !ChunkAt(hd, w, h, j).Ok?;
    }
  }

  /** Chunks `k` and `k + 1` of a column share a row of vertices: the last
      row of the one is the first row of the next. */
  lemma ColumnSeam(hd: seq<seq<Pixel>>, w: nat, h: nat, k: nat, x: int)
    requires h >= 1 && k % ChunkSplit < ChunkSplit - 1 && 0 <= x < w
    requires ChunkAt(hd, w, h, k).Ok? && ChunkAt(hd, w, h, k + 1).Ok?
    ensures 0 <= x + (h - 1) * w < |ChunkAt(hd, w, h, k).value| && x < |ChunkAt(hd, w, h, k + 1).value|
    ensures ChunkAt(hd, w, h, k).value[x + (h - 1) * w] == ChunkAt(hd, w, h, k + 1).value[x]
  {
    OffsetSteps(k, w, h);
    ChunkVertexAt(hd, w, h, XOffset(k, w), YOffset(k, h), x, h - 1);
    ChunkVertexAt(hd, w, h, XOffset(k + 1, w), YOffset(k + 1, h), x, 0);
    var xo := XOffset(k, w);
    var f := (x, y) => if InMap(hd, x + xo, y + YOffset(k, h)) then TerrainVertex(hd, x + xo, y + YOffset(k, h)) else Vertex(Zero, Zero, Pink);
    var g := (x, y) => if InMap(hd, x + xo, y + YOffset(k + 1, h)) then TerrainVertex(hd, x + xo, y + YOffset(k + 1, h)) else Vertex(Zero, Zero, Pink);
    LatticeAt(w, h, f, x, h - 1);
    LatticeAt(w, h, g, x, 0);
  }

  /** Chunks `k` and `k + 20` of a row share a column of vertices. */
  lemma RowSeam(hd: seq<seq<Pixel>>, w: nat, h: nat, k: nat, y: int)
    requires w >= 1 && 0 <= y < h
    requires ChunkAt(hd, w, h, k).Ok? && ChunkAt(hd, w, h, k + ChunkSplit).Ok?
    ensures 0 <= (w - 1) + y * w < |ChunkAt(hd, w, h, k).value| && 0 <= y * w < |ChunkAt(hd, w, h, k + ChunkSplit).value|
    ensures ChunkAt(hd, w, h, k).value[(w - 1) + y * w] == ChunkAt(hd, w, h, k + ChunkSplit).value[y * w]
  {
    OffsetSteps(k, w, h);
    assert (k + ChunkSplit) % ChunkSplit == k % ChunkSplit;
    var yo := YOffset(k, h);
    var f := (x, y) => if InMap(hd, x + XOffset(k, w), y + yo) then TerrainVertex(hd, x + XOffset(k, w), y + yo) else Vertex(Zero, Zero, Pink);
    var g := (x, y) => if InMap(hd, x + XOffset(k + ChunkSplit, w), y + yo) then TerrainVertex(hd, x + XOffset(k + ChunkSplit, w), y + yo) else Vertex(Zero, Zero, Pink);
    LatticeAt(w, h, f, w - 1, y);
    LatticeAt(w, h, g, 0, y);
    assert 0 + y * w == y * w;
  }
}
