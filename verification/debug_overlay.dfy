/** `DebugOverlay` (`Systems/DebugOverlay.cs`): the 24-vertex line list of a
    unit cube drawn around every body, and the column of debug strings. The
    drawing calls themselves are not modelled. */
module DebugOverlay {
  import opened Vectors
  import opened Bounds

  /** A loop counter of 0 or 1 as a coordinate: `i - 0.5f`. */
  function Half(c: int): real {
    c as real - 0.5
  }

  /** The vertex the `block`-th triple loop writes at counters `i`, `j`,
      `k`: `(i, j, k)`, then `(i, k, j)`, then `(k, i, j)`, each shifted by
      a half. */
  function Arrange(block: int, i: int, j: int, k: int): Vec3 {
    if block == 0 then Vec3(Half(i), Half(j), Half(k))
    else if block == 1 then Vec3(Half(i), Half(k), Half(j))
    else Vec3(Half(k), Half(i), Half(j))
  }

  /** Entry `n` of the table: eight per triple loop, `i` outermost and `k`
      innermost, so `n == 8 * block + 4 * i + 2 * j + k`. */
  function Corner(n: int): Vec3 {
    var block := if n < 8 then 0 else if n < 16 then 1 else 2;
    var r := n - 8 * block;
    var i := if r < 4 then 0 else 1;
    var j := if r - 4 * i < 2 then 0 else 1;
    Arrange(block, i, j, r - 4 * i - 2 * j)
  }

  /** The vertex the triple loops write at `(block, i, j, k)` is entry
      `8 * block + 4 * i + 2 * j + k`. */
  lemma CornerAt(block: int, i: int, j: int, k: int)
    requires 0 <= block < 3 && 0 <= i <= 1 && 0 <= j <= 1 && 0 <= k <= 1
    ensures Corner(8 * block + 4 * i + 2 * j + k) == Arrange(block, i, j, k)
  {
  }

  /** The axis along which line `p` of the `LineList` runs. */
  function EdgeAxis(p: int): Axis {
    if p < 4 then Z else if p < 8 then Y else X
  }

  /** `CreateAabb`: three triple loops appending one vertex per iteration.
      All 24 vertices are corners of the unit cube centred on the origin,
      and the line from vertex `2p` to `2p + 1` changes exactly one
      coordinate, `EdgeAxis(p)`, from `-0.5` to `0.5`. */
  method CreateAabb() returns (v: seq<Vec3>)
    ensures |v| == 24
    ensures forall n | 0 <= n < 24 :: v[n] == Corner(n)
    ensures forall n, a: Axis | 0 <= n < 24 :: Coord(v[n], a) == -0.5 || Coord(v[n], a) == 0.5
    ensures forall p, a: Axis | 0 <= p < 12 ::
              if a == EdgeAxis(p) then Coord(v[2 * p], a) == -0.5 && Coord(v[2 * p + 1], a) == 0.5
              else Coord(v[2 * p], a) == Coord(v[2 * p + 1], a)
  {
    v := [];
    var block := 0;
    while block < 3
      invariant 0 <= block <= 3
      invariant |v| == 8 * block
      invariant forall n | 0 <= n < |v| :: v[n] == Corner(n)
    {
      var i := 0;
      while i <= 1
        invariant 0 <= i <= 2
        invariant |v| == 8 * block + 4 * i
        invariant forall n | 0 <= n < |v| :: v[n] == Corner(n)
      {
        var j := 0;
        while j <= 1
          invariant 0 <= j <= 2
          invariant |v| == 8 * block + 4 * i + 2 * j
          invariant forall n | 0 <= n < |v| :: v[n] == Corner(n)
        {
          var k := 0;
          while k <= 1
            invariant 0 <= k <= 2
            invariant |v| == 8 * block + 4 * i + 2 * j + k
            invariant forall n | 0 <= n < |v| :: v[n] == Corner(n)
          {
            CornerAt(block, i, j, k);
            v := v + [Arrange(block, i, j, k)];
            k := k + 1;
          }
          j := j + 1;
        }
        i := i + 1;
      }
      block := block + 1;
    }
    forall p, a: Axis | 0 <= p < 12
      ensures if a == EdgeAxis(p) then Coord(v[2 * p], a) == -0.5 && Coord(v[2 * p + 1], a) == 0.5
              else Coord(v[2 * p], a) == Coord(v[2 * p + 1], a)
    {
      var b, s, t := LineCounters(p);
      CornerAt(b, s, t, 0);
      CornerAt(b, s, t, 1);
    }
  }

  /** The midpoint of line `p`, which names the edge whatever the order of
      its ends. */
  function Mid(p: int): Vec3 {
    Scale(0.5, Add(Corner(2 * p), Corner(2 * p + 1)))
  }

  /** The midpoint of the cube edge along `a` whose other two coordinates,
      in axis order, are `Half(s)` and `Half(t)`. */
  function EdgeMid(a: Axis, s: int, t: int): Vec3 {
    match a
    case X => Vec3(0.0, Half(s), Half(t))
    case Y => Vec3(Half(s), 0.0, Half(t))
    case Z => Vec3(Half(s), Half(t), 0.0)
  }

  /** Line `4 * block + 2 * s + t` joins the `k = 0` and `k = 1` vertices
      at counters `(s, t)` of its triple loop, so its midpoint lies on the
      edge along that loop's axis through `(s, t)`. */
  lemma MidAt(block: int, s: int, t: int)
    requires 0 <= block < 3 && 0 <= s <= 1 && 0 <= t <= 1
    ensures EdgeAxis(4 * block + 2 * s + t) == (if block == 0 then Z else if block == 1 then Y else X)
    ensures Mid(4 * block + 2 * s + t) == EdgeMid(EdgeAxis(4 * block + 2 * s + t), s, t)
  {
    var p := 4 * block + 2 * s + t;
    assert 2 * p == 8 * block + 4 * s + 2 * t + 0;
    CornerAt(block, s, t, 0);
    CornerAt(block, s, t, 1);
    ArrangeMid(block, s, t);
  }

  /** The two vertices a triple loop writes at `k = 0` and `k = 1` average
      to the midpoint of the edge along that loop's axis. */
  lemma ArrangeMid(block: int, s: int, t: int)
    requires 0 <= block < 3 && 0 <= s <= 1 && 0 <= t <= 1
    ensures Scale(0.5, Add(Arrange(block, s, t, 0), Arrange(block, s, t, 1))) ==
            EdgeMid(if block == 0 then Z else if block == 1 then Y else X, s, t)
  {
    HalfMid(s);
    HalfMid(t);
  }

  /** Averaging a half with itself, or the two halves together. */
  lemma HalfMid(c: int)
    ensures 0.5 * (Half(c) + Half(c)) == Half(c) && 0.5 * (Half(0) + Half(1)) == 0.0
  {
  }

  /** Every line number below 12 splits into its loop and counters. */
  lemma LineCounters(p: int) returns (block: int, s: int, t: int)
    requires 0 <= p < 12
    ensures 0 <= block < 3 && 0 <= s <= 1 && 0 <= t <= 1 && p == 4 * block + 2 * s + t
  {
    block := if p < 4 then 0 else if p < 8 then 1 else 2;
    s := if p - 4 * block < 2 then 0 else 1;
    t := p - 4 * block - 2 * s;
  }

  /** Two-element sets with the same members have the same sum. */
  lemma SameEndsSameMid(u: Vec3, w: Vec3, u': Vec3, w': Vec3)
    requires u != w
    ensures {u, w} == {u', w'} ==> Add(u, w) == Add(u', w')
  {
    if {u, w} == {u', w'} {
      assert u in {u', w'} && w in {u', w'} && u' in {u, w} && w' in {u, w};
    }
  }

  /** The first line number of the triple loop whose lines run along `a`. */
  function FirstLine(a: Axis): int {
    match a
    case Z => 0
    case Y => 4
    case X => 8
  }

  /** Line `p` runs along `EdgeAxis(p)` between two different vertices, and
      its midpoint is the edge midpoint through its loop counters. */
  lemma LineMid(p: int) returns (s: int, t: int)
    requires 0 <= p < 12
    ensures 0 <= s <= 1 && 0 <= t <= 1 && p == FirstLine(EdgeAxis(p)) + 2 * s + t
    ensures Corner(2 * p) != Corner(2 * p + 1)
    ensures Mid(p) == EdgeMid(EdgeAxis(p), s, t)
  {
    var block;
    block, s, t := LineCounters(p);
    MidAt(block, s, t);
    assert 2 * p == 8 * block + 4 * s + 2 * t;
    CornerAt(block, s, t, 0);
    CornerAt(block, s, t, 1);
  }

  /** An edge midpoint names its axis and counters. */
  lemma EdgeMidInjective(a: Axis, s: int, t: int, a': Axis, s': int, t': int)
    requires 0 <= s <= 1 && 0 <= t <= 1 && 0 <= s' <= 1 && 0 <= t' <= 1
    ensures EdgeMid(a, s, t) == EdgeMid(a', s', t') ==> a == a' && s == s' && t == t'
  {
  }

  /** The table's lines are the twelve edges of the cube, each exactly once:
      distinct lines have distinct ends. */
  lemma EdgesDistinct(p: int, q: int)
    requires 0 <= p < q < 12
    ensures {Corner(2 * p), Corner(2 * p + 1)} != {Corner(2 * q), Corner(2 * q + 1)}
  {
    var sp, tp := LineMid(p);
    var sq, tq := LineMid(q);
    EdgeMidInjective(EdgeAxis(p), sp, tp, EdgeAxis(q), sq, tq);
    assert Mid(p) != Mid(q);
    SameEndsSameMid(Corner(2 * p), Corner(2 * p + 1), Corner(2 * q), Corner(2 * q + 1));
  }

  /** Every edge of the cube is one of the table's lines. */
  lemma EdgesCovered(a: Axis, s: int, t: int)
    requires 0 <= s <= 1 && 0 <= t <= 1
    ensures exists p | 0 <= p < 12 :: Mid(p) == EdgeMid(a, s, t)
  {
    var block := if a == Z then 0 else if a == Y then 1 else 2;
    MidAt(block, s, t);
    var p := 4 * block + 2 * s + t;
    assert EdgeAxis(p) == a;
    assert 0 <= p < 12 && Mid(p) == EdgeMid(a, s, t);
  }

  /** A debug string callback, given total and frame time. */
  type StrFn = (real, real) -> string

  /** The registered debug strings, in registration order. */
  datatype Overlay = Overlay(strFns: seq<StrFn>)

  /** One string the overlay draws, at screen position `(x, y)`. */
  datatype TextLine = TextLine(x: real, y: real, text: string)

  /** `DbgStr`: the callback goes after every earlier one. */
  function DbgStr(o: Overlay, fn: StrFn): (r: Overlay)
    ensures |r.strFns| == |o.strFns| + 1
    ensures r.strFns[..|o.strFns|] == o.strFns && r.strFns[|o.strFns|] == fn
  {
    Overlay(o.strFns + [fn])
  }

  /** The text loop from height `y`: each callback's string at `x = 16`,
      the next one 24 pixels lower. */
  function Lines(fns: seq<StrFn>, t: real, dt: real, y: real): (r: seq<TextLine>)
    ensures |r| == |fns|
    ensures forall i | 0 <= i < |fns| :: r[i] == TextLine(16.0, y + 24.0 * i as real, fns[i](t, dt))
    decreases |fns|
  {
    if |fns| == 0 then []
    else [TextLine(16.0, y, fns[0](t, dt))] + Lines(fns[1..], t, dt, y + 24.0)
  }

  /** The text part of `Draw`: string `i` at `(16, 16 + 24 i)`. */
  function Draw(o: Overlay, t: real, dt: real): (r: seq<TextLine>)
    ensures |r| == |o.strFns|
    ensures forall i | 0 <= i < |r| :: r[i].x == 16.0 && r[i].y == 16.0 + 24.0 * i as real
    ensures forall i | 0 <= i < |r| :: r[i].text == o.strFns[i](t, dt)
  {
    Lines(o.strFns, t, dt, 16.0)
  }

  /** Registering a string adds one line below all the others and leaves
      the existing lines where they were. */
  lemma DrawAfterDbgStr(o: Overlay, fn: StrFn, t: real, dt: real)
    ensures Draw(DbgStr(o, fn), t, dt) ==
            Draw(o, t, dt) + [TextLine(16.0, 16.0 + 24.0 * |o.strFns| as real, fn(t, dt))]
  {
    var after := Draw(DbgStr(o, fn), t, dt);
    var want := Draw(o, t, dt) + [TextLine(16.0, 16.0 + 24.0 * |o.strFns| as real, fn(t, dt))];
    assert |after| == |want|;
    forall i | 0 <= i < |after| ensures after[i] == want[i] {
      if i < |o.strFns| {
        assert DbgStr(o, fn).strFns[i] == o.strFns[i];
      }
    }
  }
}
