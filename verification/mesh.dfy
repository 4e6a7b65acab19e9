/** The grid arithmetic shared by the terrain (`Systems/MapSystem.cs`) and
    water (`Systems/WaterSystem.cs`) meshes: row-major vertex grids indexed
    `x + y * width` and the two-triangles-per-cell index list built over
    them. */
module Mesh {
  import opened Vectors

  /** The `Color` values the mesh builders use. */
  datatype Color = Brown | Pink | Yellow | SaddleBrown | Blue(alpha: int)

  /** `VertexPositionNormalColor`. */
  datatype Vertex = Vertex(position: Vec3, normal: Vec3, color: Color)

  /** A row-major `w` by `h` grid whose entry `x + y * w` is `f(x, y)`;
      the array the nested `x`/`y` loops fill. */
  function Lattice<T>(w: nat, h: nat, f: (int, int) -> T): (r: seq<T>)
    ensures |r| == w * h
    decreases h
  {
    if h == 0 then []
    else
      assert w * h == w * (h - 1) + w;
      Lattice(w, h - 1, f) + seq(w, x => f(x, h - 1))
  }

  /** Position `x + y * w` of a row-major grid lies inside it. */
  lemma IndexInGrid(x: int, y: int, w: int, h: int)
    requires 0 <= x < w && 0 <= y < h
    ensures 0 <= x + y * w < w * h
  {
    assert y * w <= (h - 1) * w by {
      assert (h - 1) * w - y * w == (h - 1 - y) * w;
    }
    assert (h - 1) * w == w * h - w;
  }

  /** A product bound with a positive factor bounds the other factor. */
  lemma LessOfProduct(a: int, b: int, c: int)
    requires c > 0 && a * c < b * c
    ensures a < b
  {
  }

  /** Position `i` of a row-major grid `w` wide and `h` high is column
      `i % w` of row `i / w`. */
  lemma DivInGrid(i: int, w: int, h: int)
    requires 0 <= i < w * h && w > 0
    ensures 0 <= i % w < w && 0 <= i / w < h && i == i % w + (i / w) * w
  {
    var q := i / w;
    assert q * w <= i;
    LessOfProduct(q, h, w);
  }

  /** Entry `x + y * w` of the lattice is the value for `(x, y)`. */
  lemma {:induction false} LatticeAt<T>(w: nat, h: nat, f: (int, int) -> T, x: int, y: int)
    requires 0 <= x < w && 0 <= y < h
    ensures 0 <= x + y * w < w * h
    ensures Lattice(w, h, f)[x + y * w] == f(x, y)
    decreases h
  {
    var prev := Lattice(w, h - 1, f);
    assert |prev| == w * (h - 1);
    if y < h - 1 {
      LatticeAt(w, h - 1, f, x, y);
      assert w * (h - 1) <= w * h;
    } else {
      assert y * w == w * (h - 1);
      assert Lattice(w, h, f)[x + y * w] == seq(w, x' => f(x', h - 1))[x];
    }
  }

  /** A property every lattice value has holds of every entry. */
  lemma {:induction false} LatticeAll<T>(w: nat, h: nat, f: (int, int) -> T, p: T -> bool)
    requires forall x, y | 0 <= x < w && 0 <= y < h :: p(f(x, y))
    ensures forall i | 0 <= i < |Lattice(w, h, f)| :: p(Lattice(w, h, f)[i])
    decreases h
  {
    if h > 0 {
      LatticeAll(w, h - 1, f, p);
      var prev := Lattice(w, h - 1, f);
      var row := seq(w, x => f(x, h - 1));
      assert Lattice(w, h, f) == prev + row;
      forall i | 0 <= i < |Lattice(w, h, f)| ensures p(Lattice(w, h, f)[i]) {
        if i >= |prev| {
          assert Lattice(w, h, f)[i] == row[i - |prev|] == f(i - |prev|, h - 1);
        }
      }
    }
  }

  /** The concatenation of a sequence of sequences, in order. */
  function Flatten<T>(parts: seq<seq<T>>): (r: seq<T>)
    decreases |parts|
  {
    if |parts| == 0 then [] else Flatten(parts[..|parts| - 1]) + parts[|parts| - 1]
  }

  /** Offset `k` of block `i`, for blocks of `n` entries, lies before block `m`. */
  lemma BlockIndex(n: nat, i: int, k: int, m: int)
    requires 0 <= i < m && 0 <= k < n
    ensures 0 <= n * i + k < n * m
  {
    var d := m - i - 1;
    assert n * d >= 0;
    assert n * m == n * (i + d + 1);
    assert n * (i + d + 1) == n * i + n * d + n;
  }

  /** Flattening parts of `n` entries each gives `n` entries per part. */
  lemma {:induction false} FlattenLength<T>(parts: seq<seq<T>>, n: nat)
    requires forall i | 0 <= i < |parts| :: |parts[i]| == n
    ensures |Flatten(parts)| == n * |parts|
    decreases |parts|
  {
    if |parts| > 0 {
      var init := parts[..|parts| - 1];
      FlattenLength(init, n);
      assert |Flatten(parts)| == |Flatten(init)| + n;
      assert n * |parts| == n * |init| + n;
    }
  }

  /** Entry `k` of part `i` of a flattening of parts of `n` entries sits at
      position `n * i + k`. */
  lemma {:induction false} FlattenBlockAt<T>(parts: seq<seq<T>>, n: nat, i: int, k: int)
    requires forall j | 0 <= j < |parts| :: |parts[j]| == n
    requires 0 <= i < |parts| && 0 <= k < n
    ensures 0 <= n * i + k < |Flatten(parts)| && Flatten(parts)[n * i + k] == parts[i][k]
    decreases |parts|
  {
    var init := parts[..|parts| - 1];
    var last := parts[|parts| - 1];
    FlattenLength(init, n);
    FlattenLength(parts, n);
    BlockIndex(n, i, k, |parts|);
    assert Flatten(parts) == Flatten(init) + last;
    if i < |init| {
      assert parts[i] == init[i];
      FlattenBlockAt(init, n, i, k);
    } else {
      assert n * i == |Flatten(init)|;
      assert Flatten(parts)[n * i + k] == last[k];
    }
  }

  /** Flattening parts of `n` entries each: `n` entries per part, part `i`
      at positions `n * i` to `n * i + n - 1`. */
  lemma FlattenBlocks<T>(parts: seq<seq<T>>, n: nat)
    requires forall i | 0 <= i < |parts| :: |parts[i]| == n
    ensures |Flatten(parts)| == n * |parts|
    ensures forall i, k | 0 <= i < |parts| && 0 <= k < n ::
              0 <= n * i + k < |Flatten(parts)| && Flatten(parts)[n * i + k] == parts[i][k]
  {
    FlattenLength(parts, n);
    forall i, k | 0 <= i < |parts| && 0 <= k < n
      ensures 0 <= n * i + k < |Flatten(parts)| && Flatten(parts)[n * i + k] == parts[i][k]
    {
      FlattenBlockAt(parts, n, i, k);
    }
  }

  /** A property every entry of every part has holds of every entry of the
      flattening. */
  lemma {:induction false} FlattenAll<T>(parts: seq<seq<T>>, p: T -> bool)
    requires forall i, k | 0 <= i < |parts| && 0 <= k < |parts[i]| :: p(parts[i][k])
    ensures forall j | 0 <= j < |Flatten(parts)| :: p(Flatten(parts)[j])
    decreases |parts|
  {
    if |parts| > 0 {
      var init := parts[..|parts| - 1];
      FlattenAll(init, p);
      var last := parts[|parts| - 1];
      forall j | 0 <= j < |Flatten(parts)| ensures p(Flatten(parts)[j]) {
        if j >= |Flatten(init)| {
          assert Flatten(parts)[j] == last[j - |Flatten(init)|];
        } else {
          assert Flatten(parts)[j] == Flatten(init)[j];
        }
      }
    }
  }

  /** The six indices of grid cell `(x, y)` in a grid `w` wide: the
      triangles (top-left, lower-right, lower-left) and (top-left,
      top-right, lower-right). */
  function Cell(x: int, y: int, w: int): (r: seq<int>)
    ensures |r| == 6
  {
    var topLeft := x + y * w;
    var topRight := (x + 1) + y * w;
    var lowerLeft := x + (y + 1) * w;
    var lowerRight := (x + 1) + (y + 1) * w;
    [topLeft, lowerRight, lowerLeft, topLeft, topRight, lowerRight]
  }

  /** Where cell `(x, y)` of a grid `w` vertices wide starts in the index
      list: six indices per cell, cells row by row. */
  function CellStart(x: int, y: int, w: int): int {
    6 * (x + y * (w - 1))
  }

  /** A cell of a `w` by `h` grid names four distinct vertices of the grid,
      the two triangles sharing the top-left to lower-right diagonal. */
  lemma CellInGrid(x: int, y: int, w: int, h: int)
    requires 0 <= x < w - 1 && 0 <= y < h - 1
    ensures forall k | 0 <= k < 6 :: 0 <= Cell(x, y, w)[k] < w * h
    ensures var c := Cell(x, y, w);
      c[0] == c[3] && c[1] == c[5] &&
      c[0] != c[1] && c[0] != c[2] && c[0] != c[4] && c[1] != c[2] && c[1] != c[4] && c[2] != c[4]
  {
    var tl := x + y * w;
    assert (y + 1) * w == y * w + w;
    IndexInGrid(x, y, w, h);
    IndexInGrid(x + 1, y + 1, w, h);
    var c := Cell(x, y, w);
    assert c == [tl, tl + w + 1, tl + w, tl, tl + 1, tl + w + 1];
  }

  /** Cell `(x, y)` of a grid `w` vertices wide occupies positions
      `CellStart(x, y, w)` onward of the index list `ix`; this is entry `k`. */
  predicate CellAt(ix: seq<int>, w: int, x: int, y: int, k: int) {
    0 <= k < 6 && 0 <= CellStart(x, y, w) + k < |ix| && ix[CellStart(x, y, w) + k] == Cell(x, y, w)[k]
  }

  /** Every cell of a `w` by `h` grid is laid out in `ix`. */
  predicate CellsLaid(ix: seq<int>, w: int, h: int) {
    forall x, y, k | 0 <= x < w - 1 && 0 <= y < h - 1 && 0 <= k < 6 :: CellAt(ix, w, x, y, k)
  }

  /** The cells of a grid `w` vertices wide, by cell coordinates. */
  function CellsOf(w: int): (f: (int, int) -> seq<int>)
    ensures forall x, y :: f(x, y) == Cell(x, y, w)
  {
    (x, y) => Cell(x, y, w)
  }

  /** The index list of a `w` by `h` grid: the cells row by row, each row
      left to right. */
  function TriangleGrid(w: nat, h: nat): (r: seq<int>)
    requires w >= 1 && h >= 1
  {
    Flatten(Lattice(w - 1, h - 1, CellsOf(w)))
  }

  /** The index list has six entries per cell. */
  lemma GridSize(w: nat, h: nat)
    requires w >= 1 && h >= 1
    ensures |TriangleGrid(w, h)| == (w - 1) * (h - 1) * 6
  {
    var cells := Lattice(w - 1, h - 1, CellsOf(w));
    LatticeAll(w - 1, h - 1, CellsOf(w), (c: seq<int>) => |c| == 6);
    FlattenLength(cells, 6);
    assert |cells| == (w - 1) * (h - 1);
  }

  /** Entry `k` of cell `(x, y)` in the index list. */
  lemma GridCellAt(w: nat, h: nat, x: int, y: int, k: int)
    requires w >= 1 && h >= 1
    requires 0 <= x < w - 1 && 0 <= y < h - 1 && 0 <= k < 6
    ensures CellAt(TriangleGrid(w, h), w, x, y, k)
  {
    var i := x + y * (w - 1);
    LatticeAt(w - 1, h - 1, CellsOf(w), x, y);
    GridEntry(w, h, i, k);
    assert CellStart(x, y, w) == 6 * i;
  }

  /** Entry `k` of the `i`-th cell in row-major order sits at `6 * i + k`. */
  lemma GridEntry(w: nat, h: nat, i: int, k: int)
    requires w >= 1 && h >= 1
    requires 0 <= i < (w - 1) * (h - 1) && 0 <= k < 6
    ensures 0 <= 6 * i + k < |TriangleGrid(w, h)|
    ensures |Lattice(w - 1, h - 1, CellsOf(w))[i]| == 6 && TriangleGrid(w, h)[6 * i + k] == Lattice(w - 1, h - 1, CellsOf(w))[i][k]
  {
    var cells := Lattice(w - 1, h - 1, CellsOf(w));
    LatticeAll(w - 1, h - 1, CellsOf(w), (c: seq<int>) => |c| == 6);
    FlattenBlockAt(cells, 6, i, k);
  }

  /** The index list has six entries per cell, and cell `(x, y)` occupies
      positions `6 * (x + y * (w - 1))` onward. */
  lemma GridLayout(w: nat, h: nat)
    requires w >= 1 && h >= 1
    ensures |TriangleGrid(w, h)| == (w - 1) * (h - 1) * 6
    ensures CellsLaid(TriangleGrid(w, h), w, h)
  {
    GridSize(w, h);
    forall x, y, k | 0 <= x < w - 1 && 0 <= y < h - 1 && 0 <= k < 6 ensures CellAt(TriangleGrid(w, h), w, x, y, k) {
      GridCellAt(w, h, x, y, k);
    }
  }

  /** Every index names a vertex of the grid. */
  lemma GridInRange(w: nat, h: nat)
    requires w >= 1 && h >= 1
    ensures forall j | 0 <= j < |TriangleGrid(w, h)| :: 0 <= TriangleGrid(w, h)[j] < w * h
  {
    var f := CellsOf(w);
    var cells := Lattice(w - 1, h - 1, f);
    var p := (c: seq<int>) => forall k | 0 <= k < |c| :: 0 <= c[k] < w * h;
    forall x, y | 0 <= x < w - 1 && 0 <= y < h - 1 ensures p(f(x, y)) {
      CellInGrid(x, y, w, h);
    }
    LatticeAll(w - 1, h - 1, f, p);
    FlattenAll(cells, (e: int) => 0 <= e < w * h);
  }
}
