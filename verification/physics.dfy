/** The physics step of `PhysicsSystem` (`Systems/PhysicsSystem.cs`) over
    exact reals: semi-implicit Euler integration, a per-axis clamp against
    the world box, the sync of the transform, broad-phase pair collection
    and the sphere-sphere impulse solver. */
module Physics {
  import opened Wrappers
  import opened Vectors
  import opened Components
  import S = Store
  import R = Registry
  import Sc = Scene

  /** The world box and the gravity vector of a physics system. */
  datatype World = World(bounds: Box, gravity: Vec3)

  /** The defaults: bounds from -10 to 10 on every axis, gravity -9.81 on Y. */
  const DefaultWorld: World :=
    World(Box(Vec3(-10.0, -10.0, -10.0), Vec3(10.0, 10.0, 10.0)), Vec3(0.0, -9.81, 0.0))

  /** A potential collision `(First, Second)` between two body entities. */
  datatype Pair = Pair(first: int, second: int)

  // ---------------------------------------------------------------------
  // One body
  // ---------------------------------------------------------------------

  /** Semi-implicit Euler: the velocity takes gravity and linear drag, and
      the position then moves by the NEW velocity. */
  function Integrate(b: Body, dt: real, gravity: Vec3): (r: Body)
    ensures r.velocity == Add(b.velocity, Scale(dt, Sub(gravity, Scale(b.invMass * b.linDrag, b.velocity))))
    ensures r.position == Add(b.position, Scale(dt, r.velocity))
    ensures r == b.(velocity := r.velocity, position := r.position)
  {
    var v := Add(b.velocity, Scale(dt, Sub(gravity, Scale(b.invMass * b.linDrag, b.velocity))));
    b.(velocity := v, position := Add(b.position, Scale(dt, v)))
  }

  /** Without drag one step is exact free fall of the semi-implicit kind:
      the velocity gains `dt·g` and the position moves by `dt·v + dt²·g`. */
  lemma IntegrateWithoutDrag(b: Body, dt: real, gravity: Vec3)
    requires b.invMass * b.linDrag == 0.0
    ensures Integrate(b, dt, gravity).velocity == Add(b.velocity, Scale(dt, gravity))
    ensures Integrate(b, dt, gravity).position ==
            Add(Add(b.position, Scale(dt, b.velocity)), Scale(dt * dt, gravity))
  {
    var v := b.velocity;
    assert Scale(b.invMass * b.linDrag, v) == Zero;
    var v1 := Add(v, Scale(dt, gravity));
    assert Integrate(b, dt, gravity).velocity == v1;
    ScaleAdd(dt, v, Scale(dt, gravity));
    ScaleScale(dt, dt, gravity);
  }

  lemma ScaleAdd(k: real, a: Vec3, b: Vec3)
    ensures Scale(k, Add(a, b)) == Add(Scale(k, a), Scale(k, b))
  {
    assert k * (a.x + b.x) == k * a.x + k * b.x;
    assert k * (a.y + b.y) == k * a.y + k * b.y;
    assert k * (a.z + b.z) == k * a.z + k * b.z;
  }

  /** The box a body occupies at its current position. */
  function BoxOf(b: Body): (r: Box)
    ensures r.min == Add(b.position, b.aabb.min) && r.max == Add(b.position, b.aabb.max)
  {
    Translate(b.aabb, b.position)
  }

  /** The wall rule on one axis. `lo`/`hi` are the body box on that axis
      before the clamp, `aMin`/`aMax` the body's own box, `bMin`/`bMax` the
      world bounds. A box below the lower bound is moved onto it, else a
      box above the upper bound is moved onto that; either way the velocity
      component is reversed. Returns the new position and velocity. */
  function WallAxis(p: real, v: real, lo: real, hi: real, aMin: real, aMax: real, bMin: real, bMax: real): (r: (real, real))
    ensures lo < bMin ==> r == (bMin - aMin, -v)
    ensures !(lo < bMin) && hi > bMax ==> r == (bMax - aMax, -v)
    ensures !(lo < bMin) && !(hi > bMax) ==> r == (p, v)
  {
    if lo < bMin then (bMin - aMin, -v)
    else if hi > bMax then (bMax - aMax, -v)
    else (p, v)
  }

  /** After the wall rule the body's box lies inside the bounds on that
      axis, provided the box fits at all, and the speed is unchanged. */
  lemma WallAxisKeepsInside(p: real, v: real, aMin: real, aMax: real, bMin: real, bMax: real)
    requires aMin <= aMax && aMax - aMin <= bMax - bMin
    ensures var r := WallAxis(p, v, p + aMin, p + aMax, aMin, aMax, bMin, bMax);
      && bMin <= r.0 + aMin && r.0 + aMax <= bMax
      && (r.1 == v || r.1 == -v)
  {
  }

  /** The three independent axis checks of one body against `bounds`,
      decided on the pre-clamp box `box1`. */
  function Clamp(b: Body, box1: Box, bounds: Box): (r: Body)
    ensures (r.position.x, r.velocity.x) ==
            WallAxis(b.position.x, b.velocity.x, box1.min.x, box1.max.x, b.aabb.min.x, b.aabb.max.x, bounds.min.x, bounds.max.x)
    ensures (r.position.y, r.velocity.y) ==
            WallAxis(b.position.y, b.velocity.y, box1.min.y, box1.max.y, b.aabb.min.y, b.aabb.max.y, bounds.min.y, bounds.max.y)
    ensures (r.position.z, r.velocity.z) ==
            WallAxis(b.position.z, b.velocity.z, box1.min.z, box1.max.z, b.aabb.min.z, b.aabb.max.z, bounds.min.z, bounds.max.z)
    ensures r == b.(position := r.position, velocity := r.velocity)
  {
    var x := WallAxis(b.position.x, b.velocity.x, box1.min.x, box1.max.x, b.aabb.min.x, b.aabb.max.x, bounds.min.x, bounds.max.x);
    var y := WallAxis(b.position.y, b.velocity.y, box1.min.y, box1.max.y, b.aabb.min.y, b.aabb.max.y, bounds.min.y, bounds.max.y);
    var z := WallAxis(b.position.z, b.velocity.z, box1.min.z, box1.max.z, b.aabb.min.z, b.aabb.max.z, bounds.min.z, bounds.max.z);
    b.(position := Vec3(x.0, y.0, z.0), velocity := Vec3(x.1, y.1, z.1))
  }

  /** The box built right after integration, before the wall clamp: the
      one the broad phase tests this body with. */
  function PreClampBox(w: World, dt: real, b: Body): (r: Box)
    ensures r == BoxOf(Integrate(b, dt, w.gravity))
  {
    BoxOf(Integrate(b, dt, w.gravity))
  }

  /** A body after its whole step: integrated, then clamped. */
  function Stepped(w: World, dt: real, b: Body): (r: Body)
    ensures r == Clamp(Integrate(b, dt, w.gravity), PreClampBox(w, dt, b), w.bounds)
  {
    Clamp(Integrate(b, dt, w.gravity), PreClampBox(w, dt, b), w.bounds)
  }

  /** The box has non-negative extent and is no larger than `bounds`. */
  predicate Fits(a: Box, bounds: Box) {
    && a.min.x <= a.max.x && a.max.x - a.min.x <= bounds.max.x - bounds.min.x
    && a.min.y <= a.max.y && a.max.y - a.min.y <= bounds.max.y - bounds.min.y
    && a.min.z <= a.max.z && a.max.z - a.min.z <= bounds.max.z - bounds.min.z
  }

  predicate Inside(a: Box, bounds: Box) {
    LessEq(bounds.min, a.min) && LessEq(a.max, bounds.max)
  }

  /** The clamp puts a fitting box inside the world and keeps the speed. */
  lemma ClampInside(b: Body, bounds: Box)
    requires Fits(b.aabb, bounds)
    ensures Inside(BoxOf(Clamp(b, BoxOf(b), bounds)), bounds)
    ensures LengthSq(Clamp(b, BoxOf(b), bounds).velocity) == LengthSq(b.velocity)
  {
    var v := b.velocity;
    var r := Clamp(b, BoxOf(b), bounds);
    WallAxisKeepsInside(b.position.x, v.x, b.aabb.min.x, b.aabb.max.x, bounds.min.x, bounds.max.x);
    WallAxisKeepsInside(b.position.y, v.y, b.aabb.min.y, b.aabb.max.y, bounds.min.y, bounds.max.y);
    WallAxisKeepsInside(b.position.z, v.z, b.aabb.min.z, b.aabb.max.z, bounds.min.z, bounds.max.z);
    SameSpeed(r.velocity, v);
  }

  /** Flipping the signs of some components keeps the squared length. */
  lemma SameSpeed(a: Vec3, b: Vec3)
    requires a.x == b.x || a.x == -b.x
    requires a.y == b.y || a.y == -b.y
    requires a.z == b.z || a.z == -b.z
    ensures LengthSq(a) == LengthSq(b)
  {
    SquareOfSign(a.x, b.x);
    SquareOfSign(a.y, b.y);
    SquareOfSign(a.z, b.z);
  }

  lemma SquareOfSign(a: real, b: real)
    requires a == b || a == -b
    ensures a * a == b * b
  {
  }

  /** A body whose box fits in the world ends its step inside the world,
      with the speed it had after integration. */
  lemma SteppedInsideWorld(w: World, dt: real, b: Body)
    requires Fits(b.aabb, w.bounds)
    ensures Inside(BoxOf(Stepped(w, dt, b)), w.bounds)
    ensures LengthSq(Stepped(w, dt, b).velocity) == LengthSq(Integrate(b, dt, w.gravity).velocity)
  {
    ClampInside(Integrate(b, dt, w.gravity), w.bounds);
  }

  // ---------------------------------------------------------------------
  // The integration loop with its broad phase
  // ---------------------------------------------------------------------

  /** No element occurs twice. */
  predicate NoDup<T(==)>(s: seq<T>) {
    forall i, j | 0 <= i < j < |s| :: s[i] != s[j]
  }

  /** Every entry of the body table is a `CBody`, so every cast succeeds. */
  predicate AllBodies(bs: S.Store) {
    forall j | 0 <= j < |bs.order| :: bs.order[j] in bs.entries && bs.entries[bs.order[j]].CBody?
  }

  /** Every entry of the body table from position `j` on is a `CBody`. */
  predicate BodiesFrom(bs: S.Store, j: nat) {
    forall k | j <= k < |bs.order| :: bs.order[k] in bs.entries && bs.entries[bs.order[k]].CBody?
  }

  /** `p` comes before `q` in the order the loops visit pairs: by the
      position of the first key in `ids`, then by that of the second. */
  predicate Before(ids: seq<int>, p: Pair, q: Pair) {
    || S.Pos(ids, p.first) < S.Pos(ids, q.first)
    || (p.first == q.first && S.Pos(ids, p.second) < S.Pos(ids, q.second))
  }

  /** Every pair of `ps` comes before the pairs after it. */
  predicate Ascending(ids: seq<int>, ps: seq<Pair>) {
    forall x, y | 0 <= x < y < |ps| :: Before(ids, ps[x], ps[y])
  }

  /** `ps` are the pairs the inner loop for key `a` and box `box1` owes from
      position `j` on: `(a, k)` for exactly the later-keyed bodies `k` whose
      box meets `box1`, each once. */
  predicate PairsFrom(bs: S.Store, a: int, box1: Box, j: nat, ps: seq<Pair>)
    requires j <= |bs.order| && BodiesFrom(bs, j)
  {
    && (forall p | p in ps :: p.first == a && a < p.second && p.second in bs.order[j..])
    && (forall k | j <= k < |bs.order| ::
          (Pair(a, bs.order[k]) in ps <==> a < bs.order[k] && Intersects(box1, BoxOf(bs.entries[bs.order[k]].body))))
    && NoDup(ps)
  }

  /** The inner loop for the body keyed `a` whose pre-clamp box is `box1`:
      visits the body table from position `j` on, casts every entry
      (before the key test, as the source does) and records `(a, k)` for
      each later-keyed body whose box, where it is now, meets `box1`. */
  function Broad(bs: S.Store, a: int, box1: Box, j: nat): (r: Result<seq<Pair>>)
    requires S.Valid(bs) && j <= |bs.order|
    ensures r.Ok? <==> BodiesFrom(bs, j)
    ensures r.Err? ==> r.error == InvalidCast
    ensures r.Ok? ==> PairsFrom(bs, a, box1, j, r.value)
    ensures r.Ok? ==> Ascending(bs.order, r.value)
    decreases |bs.order| - j
  {
    if j == |bs.order| then Ok([])
    else
      var k := bs.order[j];
      var b2 :- AsBody(bs.entries[k]);
      var rest :- Broad(bs, a, box1, j + 1);
      BroadCons(bs, a, box1, j, rest);
      BroadOrder(bs.order, a, j, rest);
      if k <= a || !Intersects(box1, BoxOf(b2)) then Ok(rest) else Ok([Pair(a, k)] + rest)
  }

  /** A pair that comes before every pair of an ascending list can be put
      in front of it. */
  lemma AscendingCons(ids: seq<int>, p: Pair, rest: seq<Pair>)
    requires Ascending(ids, rest)
    requires forall q | q in rest :: Before(ids, p, q)
    ensures Ascending(ids, [p] + rest)
  {
    var ps := [p] + rest;
    forall x, y | 0 <= x < y < |ps| ensures Before(ids, ps[x], ps[y]) {
      assert ps[y] == rest[y - 1];
      if x > 0 {
        assert ps[x] == rest[x - 1];
      }
    }
  }

  /** One turn of the inner loop: the pairs owed from `j + 1` on, with
      `(a, k)` in front when the body at `j` qualifies, are those owed from
      `j` on. */
  lemma BroadCons(bs: S.Store, a: int, box1: Box, j: nat, rest: seq<Pair>)
    requires S.Valid(bs) && j < |bs.order| && BodiesFrom(bs, j)
    requires PairsFrom(bs, a, box1, j + 1, rest)
    ensures var k := bs.order[j];
      PairsFrom(bs, a, box1, j,
        if k <= a || !Intersects(box1, BoxOf(bs.entries[k].body)) then rest else [Pair(a, k)] + rest)
  {
    var k := bs.order[j];
    assert bs.order[j..] == [k] + bs.order[j + 1..];
    assert k !in bs.order[j + 1..];
    assert forall p | p in rest :: p.second != k;
    forall m | j + 1 <= m < |bs.order| ensures bs.order[m] != k {
    }
  }

  /** The inner loop lists its pairs by the table position of their
      second key: a pair found at `j` comes before those found later. */
  lemma BroadOrder(ids: seq<int>, a: int, j: nat, rest: seq<Pair>)
    requires S.Distinct(ids) && j < |ids| && Ascending(ids, rest)
    requires forall p | p in rest :: p.first == a && p.second in ids[j + 1..]
    ensures Ascending(ids, [Pair(a, ids[j])] + rest)
  {
    S.PosOfDistinct(ids);
    forall p | p in rest ensures Before(ids, Pair(a, ids[j]), p) {
      var m :| j + 1 <= m < |ids| && ids[m] == p.second;
    }
    AscendingCons(ids, Pair(a, ids[j]), rest);
  }

  /** Looks up the transform of entity `id` and casts it, throwing like
      `GetComponentFromEntity<CTransform>(id)` and the `(CTransform)` cast. */
  function TransformOf(ts: S.Store, id: int): (r: Result<Transform>)
    ensures r.Ok? <==> id in ts.entries && ts.entries[id].CTransform?
    ensures r.Ok? ==> ts.entries[id] == CTransform(r.value)
    ensures r.Err? ==> r.error == (if id in ts.entries then InvalidCast else MissingKey)
  {
    if id !in ts.entries then Err(MissingKey) else AsTransform(ts.entries[id])
  }

  /** The tables after the body at position `i` (cast to `b`, with
      transform `tr`) has been integrated, clamped and copied into its
      transform. */
  function Advance(step: Body -> Body, pre: Body -> Box, bs: S.Store, ts: S.Store, i: nat, b: Body, tr: Transform): (r: (S.Store, S.Store))
    requires S.Valid(bs) && S.Valid(ts) && i < |bs.order| && bs.order[i] in ts.entries
    ensures S.Valid(r.0) && r.0.order == bs.order && r.0.entries.Keys == bs.entries.Keys
    ensures S.Valid(r.1) && r.1.order == ts.order && r.1.entries.Keys == ts.entries.Keys
    ensures r.0.entries == bs.entries[bs.order[i] := CBody(step(b))]
    ensures r.1.entries == ts.entries[bs.order[i] := CTransform(tr.(position := step(b).position))]
  {
    var id := bs.order[i];
    var b2 := step(b);
    (S.Set(bs, id, CBody(b2)), S.Set(ts, id, CTransform(tr.(position := b2.position))))
  }

  /** The outer loop from position `i` of the body table `bs`: cast the
      body, integrate it, build its pre-clamp box, clamp it, copy its
      position into its transform (table `ts`), then run the inner loop
      against the bodies as they are at that moment. Returns the updated
      body and transform tables and the pairs in the order they were
      added. */
  function StepFrom(step: Body -> Body, pre: Body -> Box, bs: S.Store, ts: S.Store, i: nat): (r: Result<(S.Store, S.Store, seq<Pair>)>)
    requires S.Valid(bs) && S.Valid(ts) && i <= |bs.order|
    ensures r.Ok? ==> S.Valid(r.value.0) && r.value.0.order == bs.order && r.value.0.entries.Keys == bs.entries.Keys
    ensures r.Ok? ==> S.Valid(r.value.1) && r.value.1.order == ts.order && r.value.1.entries.Keys == ts.entries.Keys
    decreases |bs.order| - i
  {
    if i == |bs.order| then Ok((bs, ts, []))
    else
      var id := bs.order[i];
      var b :- AsBody(bs.entries[id]);
      var tr :- TransformOf(ts, id);
      var (bs1, ts1) := Advance(step, pre, bs, ts, i, b, tr);
      var found :- Broad(bs1, id, pre(b), 0);
      var rest :- StepFrom(step, pre, bs1, ts1, i + 1);
      Ok((rest.0, rest.1, found + rest.2))
  }

  /** The body at position `j` as the outer loop at position `i` sees it:
      already stepped when the loop passed it earlier, as it was otherwise. */
  function SeenAt(step: Body -> Body, pre: Body -> Box, orig: seq<Body>, i: nat, j: nat): (r: Body)
    requires j < |orig|
    ensures j < i ==> r == step(orig[j])
    ensures j >= i ==> r == orig[j]
  {
    if j < i then step(orig[j]) else orig[j]
  }

  /** The reference rule for the broad phase: the outer body at position
      `i` and the body at position `j` form a pair iff the second key is
      larger and the first body's PRE-clamp box meets the second body's
      box as the outer loop finds it. */
  predicate Recorded(step: Body -> Body, pre: Body -> Box, ids: seq<int>, orig: seq<Body>, i: nat, j: nat)
    requires i < |ids| == |orig| && j < |ids|
  {
    ids[i] < ids[j] && Intersects(pre(orig[i]), BoxOf(SeenAt(step, pre, orig, i, j)))
  }

  /** The body table when the outer loop is at position `i`. */
  predicate TableAt(step: Body -> Body, pre: Body -> Box, bs: S.Store, orig: seq<Body>, i: nat) {
    && S.Valid(bs) && |orig| == |bs.order| && i <= |bs.order|
    && forall j | 0 <= j < |bs.order| :: bs.entries[bs.order[j]] == CBody(SeenAt(step, pre, orig, i, j))
  }

  /** The pairs `found` that the inner loop for the body at position `i`
      owes: each first key is that body's and below its second key, each
      pair occurs once, and a pair is there iff the reference rule
      records it. */
  predicate FoundAt(step: Body -> Body, pre: Body -> Box, ids: seq<int>, orig: seq<Body>, i: nat, found: seq<Pair>)
    requires i < |ids| == |orig|
  {
    && (forall p | p in found :: p.first == ids[i] && p.first < p.second && p.second in ids)
    && (forall b | 0 <= b < |ids| :: (Pair(ids[i], ids[b]) in found <==> Recorded(step, pre, ids, orig, i, b)))
    && NoDup(found)
    && Ascending(ids, found)
  }

  /** One outer iteration's inner loop records exactly the pairs of the
      reference rule for that position. */
  lemma BroadAtStep(step: Body -> Body, pre: Body -> Box, bs1: S.Store, orig: seq<Body>, i: nat)
    requires i < |bs1.order| && TableAt(step, pre, bs1, orig, i + 1)
    ensures var found := Broad(bs1, bs1.order[i], pre(orig[i]), 0);
      found.Ok? && FoundAt(step, pre, bs1.order, orig, i, found.value)
  {
    var ids := bs1.order;
    var found := Broad(bs1, ids[i], pre(orig[i]), 0);
    assert ids[0..] == ids;
    forall b | 0 <= b < |ids|
      ensures Pair(ids[i], ids[b]) in found.value <==> Recorded(step, pre, ids, orig, i, b)
    {
      if b != i {
        assert SeenAt(step, pre, orig, i + 1, b) == SeenAt(step, pre, orig, i, b);
      }
    }
  }

  /** Every transform from position `i` on exists and is a `CTransform`. */
  predicate TransformsFrom(ts: S.Store, ids: seq<int>, i: nat) {
    forall j | i <= j < |ids| :: TransformOf(ts, ids[j]).Ok?
  }

  /** Stepping the body at position `i` takes a table in the reference
      state for `i` to one in the reference state for `i + 1`. */
  lemma AdvanceTable(step: Body -> Body, pre: Body -> Box, bs: S.Store, bs1: S.Store, orig: seq<Body>, i: nat)
    requires TableAt(step, pre, bs, orig, i) && i < |bs.order|
    requires S.Valid(bs1) && bs1.order == bs.order
    requires bs1.entries == bs.entries[bs.order[i] := CBody(step(orig[i]))]
    ensures TableAt(step, pre, bs1, orig, i + 1)
  {
    var ids := bs.order;
    forall j | 0 <= j < |ids| ensures bs1.entries[ids[j]] == CBody(SeenAt(step, pre, orig, i + 1, j)) {
      if j != i {
        assert ids[j] != ids[i];
        assert bs.entries[ids[j]] == CBody(SeenAt(step, pre, orig, i, j));
      }
    }
  }

  /** One outer iteration on a table in the reference state whose body has
      a transform: it yields the next body table (in the reference state
      for `i + 1`), the next transform table (the body's transform moved to
      its new position) and the pairs found, and the loop from `i` is the
      loop from `i + 1` with those pairs in front. */
  lemma StepNext(step: Body -> Body, pre: Body -> Box, bs: S.Store, ts: S.Store, orig: seq<Body>, i: nat)
    returns (bs1: S.Store, ts1: S.Store, found: seq<Pair>)
    requires TableAt(step, pre, bs, orig, i) && S.Valid(ts) && i < |bs.order|
    requires TransformOf(ts, bs.order[i]).Ok?
    ensures TableAt(step, pre, bs1, orig, i + 1) && bs1.order == bs.order
    ensures S.Valid(ts1) && ts1.order == ts.order
    ensures ts1.entries == ts.entries[bs.order[i] := CTransform(TransformOf(ts, bs.order[i]).value.(position := step(orig[i]).position))]
    ensures FoundAt(step, pre, bs.order, orig, i, found)
    ensures StepFrom(step, pre, bs, ts, i).Ok? <==> StepFrom(step, pre, bs1, ts1, i + 1).Ok?
    ensures StepFrom(step, pre, bs, ts, i).Ok? ==>
      && StepFrom(step, pre, bs, ts, i).value.0 == StepFrom(step, pre, bs1, ts1, i + 1).value.0
      && StepFrom(step, pre, bs, ts, i).value.1 == StepFrom(step, pre, bs1, ts1, i + 1).value.1
      && StepFrom(step, pre, bs, ts, i).value.2 == found + StepFrom(step, pre, bs1, ts1, i + 1).value.2
  {
    var ids := bs.order;
    assert bs.entries[ids[i]] == CBody(SeenAt(step, pre, orig, i, i));
    var nxt := Advance(step, pre, bs, ts, i, orig[i], TransformOf(ts, ids[i]).value);
    bs1, ts1 := nxt.0, nxt.1;
    AdvanceTable(step, pre, bs, bs1, orig, i);
    BroadAtStep(step, pre, bs1, orig, i);
    found := Broad(bs1, ids[i], pre(orig[i]), 0).value;
  }

  /** Replacing the transform of the body at position `i` by another
      transform leaves the later positions' lookups as they were. */
  lemma TransformsStep(ts: S.Store, ts1: S.Store, ids: seq<int>, i: nat, tr: Transform)
    requires S.Distinct(ids) && i < |ids|
    requires ts1.entries == ts.entries[ids[i] := CTransform(tr)]
    ensures forall j | i + 1 <= j < |ids| :: TransformOf(ts1, ids[j]) == TransformOf(ts, ids[j])
    ensures TransformOf(ts, ids[i]).Ok? ==> (TransformsFrom(ts, ids, i) <==> TransformsFrom(ts1, ids, i + 1))
  {
    forall j | i + 1 <= j < |ids| ensures TransformOf(ts1, ids[j]) == TransformOf(ts, ids[j]) {
      assert ids[j] != ids[i];
    }
  }

  /** The outer loop from `i` succeeds iff every remaining body has a
      transform (the casts cannot fail on a table in the reference state). */
  lemma {:induction false} StepFromOk(step: Body -> Body, pre: Body -> Box, bs: S.Store, ts: S.Store, orig: seq<Body>, i: nat)
    requires TableAt(step, pre, bs, orig, i) && S.Valid(ts)
    ensures StepFrom(step, pre, bs, ts, i).Ok? <==> TransformsFrom(ts, bs.order, i)
    decreases |bs.order| - i
  {
    var ids := bs.order;
    if i < |ids| {
      if TransformOf(ts, ids[i]).Err? {
        assert bs.entries[ids[i]] == CBody(SeenAt(step, pre, orig, i, i));
      } else {
        var bs1, ts1, found := StepNext(step, pre, bs, ts, orig, i);
        StepFromOk(step, pre, bs1, ts1, orig, i + 1);
        TransformsStep(ts, ts1, ids, i, TransformOf(ts, ids[i]).value.(position := step(orig[i]).position));
      }
    }
  }

  /** After a successful outer loop from `i` every body is stepped. */
  lemma {:induction false} StepFromBodies(step: Body -> Body, pre: Body -> Box, bs: S.Store, ts: S.Store, orig: seq<Body>, i: nat)
    requires TableAt(step, pre, bs, orig, i) && S.Valid(ts)
    requires StepFrom(step, pre, bs, ts, i).Ok?
    ensures forall j | 0 <= j < |bs.order| ::
              StepFrom(step, pre, bs, ts, i).value.0.entries[bs.order[j]] == CBody(step(orig[j]))
    decreases |bs.order| - i
  {
    var ids := bs.order;
    if i == |ids| {
      forall j | 0 <= j < |ids| ensures bs.entries[ids[j]] == CBody(step(orig[j])) {
        assert bs.entries[ids[j]] == CBody(SeenAt(step, pre, orig, i, j));
      }
    } else {
      StepFromOk(step, pre, bs, ts, orig, i);
      assert TransformOf(ts, ids[i]).Ok?;
      var bs1, ts1, found := StepNext(step, pre, bs, ts, orig, i);
      StepFromBodies(step, pre, bs1, ts1, orig, i + 1);
    }
  }

  /** The new positions of the bodies: that of each body after its step. */
  function Positions(step: Body -> Body, orig: seq<Body>): (r: seq<Vec3>)
    ensures |r| == |orig|
    ensures forall j | 0 <= j < |orig| :: r[j] == step(orig[j]).position
  {
    seq(|orig|, j requires 0 <= j < |orig| => step(orig[j]).position)
  }

  /** `out` holds, for every body from position `i` on, that body's
      transform moved to its new position, and every other transform of
      `ts` unchanged. */
  predicate Synced(ts: S.Store, out: S.Store, ids: seq<int>, i: nat, pos: seq<Vec3>)
    requires i <= |ids| == |pos|
  {
    && (forall j | i <= j < |ids| ::
          && TransformOf(ts, ids[j]).Ok?
          && ids[j] in out.entries
          && out.entries[ids[j]] == CTransform(TransformOf(ts, ids[j]).value.(position := pos[j])))
    && (forall k | k in ts.entries && k !in ids[i..] :: k in out.entries && out.entries[k] == ts.entries[k])
  }

  /** One turn of the transform sync: moving the transform at position `i`
      in front of a table synced from `i + 1` gives one synced from `i`. */
  lemma SyncedStep(ts: S.Store, ts1: S.Store, out: S.Store, ids: seq<int>, i: nat, pos: seq<Vec3>)
    requires S.Distinct(ids) && i < |ids| == |pos|
    requires TransformOf(ts, ids[i]).Ok?
    requires ts1.entries == ts.entries[ids[i] := CTransform(TransformOf(ts, ids[i]).value.(position := pos[i]))]
    requires Synced(ts1, out, ids, i + 1, pos)
    ensures Synced(ts, out, ids, i, pos)
  {
    var id := ids[i];
    assert ids[i..] == [id] + ids[i + 1..];
    assert id !in ids[i + 1..] by {
      forall m | i + 1 <= m < |ids| ensures ids[m] != id { }
    }
    assert id in ts1.entries && id !in ids[i + 1..];
    forall j | i + 1 <= j < |ids| ensures TransformOf(ts1, ids[j]) == TransformOf(ts, ids[j]) {
      assert ids[j] != id;
    }
    forall k | k in ts.entries && k !in ids[i..] ensures k in out.entries && out.entries[k] == ts.entries[k] {
      assert k != id && k in ts1.entries && k !in ids[i + 1..];
    }
  }

  /** After a successful outer loop from `i` every remaining transform
      holds its body's new position and the other transforms are
      untouched. */
  lemma {:induction false} StepFromTransforms(step: Body -> Body, pre: Body -> Box, bs: S.Store, ts: S.Store, orig: seq<Body>, i: nat)
    requires TableAt(step, pre, bs, orig, i) && S.Valid(ts)
    requires StepFrom(step, pre, bs, ts, i).Ok?
    ensures Synced(ts, StepFrom(step, pre, bs, ts, i).value.1, bs.order, i, Positions(step, orig))
    decreases |bs.order| - i
  {
    var ids := bs.order;
    StepFromOk(step, pre, bs, ts, orig, i);
    if i < |ids| {
      assert TransformOf(ts, ids[i]).Ok?;
      var bs1, ts1, found := StepNext(step, pre, bs, ts, orig, i);
      StepFromTransforms(step, pre, bs1, ts1, orig, i + 1);
      SyncedStep(ts, ts1, StepFrom(step, pre, bs1, ts1, i + 1).value.1, ids, i, Positions(step, orig));
    } else {
      assert ids[i..] == [];
    }
  }

  /** The pairs `ps` owed by the outer loop from position `i`: first keys
      from positions `i` onwards below their second keys, each pair once,
      and a pair is there iff the reference rule records it. */
  predicate PairsAt(step: Body -> Body, pre: Body -> Box, ids: seq<int>, orig: seq<Body>, i: nat, ps: seq<Pair>)
    requires i <= |ids| == |orig|
  {
    && (forall p | p in ps :: p.first in ids[i..] && p.second in ids && p.first < p.second)
    && (forall a, b | i <= a < |ids| && 0 <= b < |ids| ::
          (Pair(ids[a], ids[b]) in ps <==> Recorded(step, pre, ids, orig, a, b)))
    && NoDup(ps)
    && Ascending(ids, ps)
  }

  lemma NoDupConcat<T>(a: seq<T>, b: seq<T>)
    requires NoDup(a) && NoDup(b)
    requires forall x, y | x in a && y in b :: x != y
    ensures NoDup(a + b)
  {
    var c := a + b;
    forall x, y | 0 <= x < y < |c| ensures c[x] != c[y] {
      if x < |a| && y >= |a| {
        assert c[x] in a && c[y] in b;
      } else if x < |a| {
        assert c[x] == a[x] && c[y] == a[y];
      } else {
        assert c[x] == b[x - |a|] && c[y] == b[y - |a|];
      }
    }
  }

  /** One turn of the outer loop's pair list: the pairs found at position
      `i` in front of those owed from `i + 1` are those owed from `i`. */
  lemma PairsAtStep(step: Body -> Body, pre: Body -> Box, ids: seq<int>, orig: seq<Body>, i: nat, found: seq<Pair>, rest: seq<Pair>)
    requires S.Distinct(ids) && i < |ids| == |orig|
    requires FoundAt(step, pre, ids, orig, i, found)
    requires PairsAt(step, pre, ids, orig, i + 1, rest)
    ensures PairsAt(step, pre, ids, orig, i, found + rest)
  {
    var id := ids[i];
    var ps := found + rest;
    assert ids[i..] == [id] + ids[i + 1..];
    assert id !in ids[i + 1..] by {
      forall m | i + 1 <= m < |ids| ensures ids[m] != id { }
    }
    forall p | p in ps ensures p.first in ids[i..] && p.second in ids && p.first < p.second {
      if p in rest {
        assert p.first in ids[i + 1..];
      }
    }
    NoDupConcat(found, rest);
    S.PosOfDistinct(ids);
    forall p | p in rest ensures i < S.Pos(ids, p.first) {
      var m :| i + 1 <= m < |ids| && ids[m] == p.first;
    }
    forall x, y | 0 <= x < y < |ps| ensures Before(ids, ps[x], ps[y]) {
      if y < |found| {
        assert ps[x] == found[x] && ps[y] == found[y];
      } else if x >= |found| {
        assert ps[x] == rest[x - |found|] && ps[y] == rest[y - |found|];
      } else {
        assert ps[x] in found && ps[y] in rest;
      }
    }
    forall a, b | i <= a < |ids| && 0 <= b < |ids|
      ensures Pair(ids[a], ids[b]) in ps <==> Recorded(step, pre, ids, orig, a, b)
    {
      if a == i {
        assert Pair(ids[a], ids[b]) !in rest;
      } else {
        assert ids[a] != id;
        assert Pair(ids[a], ids[b]) !in found;
      }
    }
  }

  /** After a successful outer loop from `i` the pairs are exactly those of
      the reference rule for positions `i` onwards, each once. */
  lemma {:induction false} StepFromPairs(step: Body -> Body, pre: Body -> Box, bs: S.Store, ts: S.Store, orig: seq<Body>, i: nat)
    requires TableAt(step, pre, bs, orig, i) && S.Valid(ts)
    requires StepFrom(step, pre, bs, ts, i).Ok?
    ensures PairsAt(step, pre, bs.order, orig, i, StepFrom(step, pre, bs, ts, i).value.2)
    decreases |bs.order| - i
  {
    var ids := bs.order;
    StepFromOk(step, pre, bs, ts, orig, i);
    if i < |ids| {
      assert TransformOf(ts, ids[i]).Ok?;
      var bs1, ts1, found := StepNext(step, pre, bs, ts, orig, i);
      StepFromPairs(step, pre, bs1, ts1, orig, i + 1);
      PairsAtStep(step, pre, ids, orig, i, found, StepFrom(step, pre, bs1, ts1, i + 1).value.2);
    }
  }

  // ---------------------------------------------------------------------
  // `Update` against the scene's tables
  // ---------------------------------------------------------------------

  /** The bodies of an all-`CBody` table, in iteration order. */
  function Bodies(bs: S.Store): (r: seq<Body>)
    requires AllBodies(bs)
    ensures |r| == |bs.order|
    ensures forall j | 0 <= j < |bs.order| :: bs.entries[bs.order[j]] == CBody(r[j])
  {
    seq(|bs.order|, j requires 0 <= j < |bs.order| => bs.entries[bs.order[j]].body)
  }

  /** The per-body step and pre-clamp box of world `w` over `dt`. */
  function StepOf(w: World, dt: real): (r: Body -> Body)
    ensures forall b :: r(b) == Stepped(w, dt, b)
  {
    b => Stepped(w, dt, b)
  }

  function PreOf(w: World, dt: real): (r: Body -> Box)
    ensures forall b :: r(b) == PreClampBox(w, dt, b)
  {
    b => PreClampBox(w, dt, b)
  }

  /** Every entry of the transform table is a `CTransform`, so the loop
      that refreshes each transform's `Frame` casts them all. */
  predicate AllTransforms(ts: S.Store) {
    forall j | 0 <= j < |ts.order| :: ts.order[j] in ts.entries && ts.entries[ts.order[j]].CTransform?
  }

  /** `Update(t, dt)` up to the collision solver: the loop that casts
      every transform (to refresh its `Frame`), then the integration loop over
      the `CBody` table with the transform sync and the broad phase.
      `GetComponents` gives an empty table for an unregistered type, and a
      missing `CTransform` table makes every transform lookup throw. The
      returned pairs are the new potential-collision list (the old one is
      cleared first). */
  function Update(w: World, dt: real, r: R.Registry): (res: Result<(R.Registry, seq<Pair>)>)
    requires R.Valid(r)
    ensures res.Ok? ==> R.Valid(res.value.0)
    ensures res.Ok? ==> res.value.0.entities == r.entities && res.value.0.counter == r.counter
    ensures res.Ok? ==> res.value.0.stores.Keys == r.stores.Keys
    ensures res.Ok? ==> forall t | t in r.stores && t != TBody && t != TTransform :: res.value.0.stores[t] == r.stores[t]
  {
    var bs := R.GetComponents(r, TBody);
    var ts := R.GetComponents(r, TTransform);
    if !AllTransforms(ts) then Err(InvalidCast)
    else
      var out :- StepFrom(StepOf(w, dt), PreOf(w, dt), bs, ts, 0);
      var s1 := if TBody in r.stores then r.stores[TBody := out.0] else r.stores;
      var s2 := if TTransform in r.stores then s1[TTransform := out.1] else s1;
      Ok((r.(stores := s2), out.2))
  }

  /** The lookups in the registry after a successful `Update` are those of
      the tables the outer loop returns. */
  lemma UpdateStores(w: World, dt: real, r: R.Registry)
    requires R.Valid(r) && Update(w, dt, r).Ok?
    ensures var out := StepFrom(StepOf(w, dt), PreOf(w, dt), R.GetComponents(r, TBody), R.GetComponents(r, TTransform), 0).value;
      var r1 := Update(w, dt, r).value.0;
      && (forall k :: R.GetComponentFromEntity(r1, TBody, k) == (if k in out.0.entries then Ok(out.0.entries[k]) else Err(MissingKey)))
      && (forall k :: R.GetComponentFromEntity(r1, TTransform, k) == (if k in out.1.entries then Ok(out.1.entries[k]) else Err(MissingKey)))
  {
  }

  /** `Update` succeeds iff every transform entry is a `CTransform` and
      either the body table is empty, or every entry in it is a `CBody` and
      every body entity has a `CTransform`; a failure is a cast or lookup
      error. */
  lemma UpdateOk(w: World, dt: real, r: R.Registry)
    requires R.Valid(r)
    ensures var bs := R.GetComponents(r, TBody);
      var ts := R.GetComponents(r, TTransform);
      Update(w, dt, r).Ok? <==>
      AllTransforms(ts) && (|bs.order| == 0 || (AllBodies(bs) && TransformsFrom(ts, bs.order, 0)))
    ensures !AllTransforms(R.GetComponents(r, TTransform)) ==> Update(w, dt, r) == Err(InvalidCast)
  {
    var bs := R.GetComponents(r, TBody);
    var ts := R.GetComponents(r, TTransform);
    var step, pre := StepOf(w, dt), PreOf(w, dt);
    if AllTransforms(ts) && AllBodies(bs) {
      StepFromOk(step, pre, bs, ts, Bodies(bs), 0);
    } else if AllTransforms(ts) && |bs.order| > 0 {
      var id := bs.order[0];
      if bs.entries[id].CBody? && TransformOf(ts, id).Ok? {
        var nxt := Advance(step, pre, bs, ts, 0, bs.entries[id].body, TransformOf(ts, id).value);
        var k :| 0 <= k < |bs.order| && !bs.entries[bs.order[k]].CBody?;
        assert k != 0 && bs.order[k] != id;
        assert !nxt.0.entries[nxt.0.order[k]].CBody?;
        assert Broad(nxt.0, id, pre(bs.entries[id].body), 0).Err?;
      }
    }
  }

  /** A successful `Update` steps every body, puts each body's new position
      into its transform and leaves every other transform as it was. */
  lemma UpdateTables(w: World, dt: real, r: R.Registry)
    requires R.Valid(r)
    requires Update(w, dt, r).Ok?
    ensures AllBodies(R.GetComponents(r, TBody))
    ensures var ids := R.GetComponents(r, TBody).order;
      var orig := Bodies(R.GetComponents(r, TBody));
      var r1 := Update(w, dt, r).value.0;
      && (forall j | 0 <= j < |ids| ::
            R.GetComponentFromEntity(r1, TBody, ids[j]) == Ok(CBody(Stepped(w, dt, orig[j]))))
      && (forall j | 0 <= j < |ids| ::
            R.GetComponentFromEntity(r, TTransform, ids[j]).Ok? &&
            R.GetComponentFromEntity(r, TTransform, ids[j]).value.CTransform? &&
            R.GetComponentFromEntity(r1, TTransform, ids[j]) ==
            Ok(CTransform(R.GetComponentFromEntity(r, TTransform, ids[j]).value.transform.(position := Stepped(w, dt, orig[j]).position))))
      && (forall k | k !in ids :: R.GetComponentFromEntity(r1, TTransform, k) == R.GetComponentFromEntity(r, TTransform, k))
  {
    var bs := R.GetComponents(r, TBody);
    var ts := R.GetComponents(r, TTransform);
    var step, pre := StepOf(w, dt), PreOf(w, dt);
    UpdateOk(w, dt, r);
    var orig := Bodies(bs);
    StepFromBodies(step, pre, bs, ts, orig, 0);
    StepFromTransforms(step, pre, bs, ts, orig, 0);
    assert bs.order[0..] == bs.order;
    UpdateStores(w, dt, r);
  }

  /** The pairs of a successful `Update` are exactly those of the reference
      rule, each once, first key below second, both keys bodies, listed by
      the table position of the first key and then of the second. */
  lemma UpdatePairs(w: World, dt: real, r: R.Registry)
    requires R.Valid(r)
    requires Update(w, dt, r).Ok?
    ensures AllBodies(R.GetComponents(r, TBody))
    ensures var ids := R.GetComponents(r, TBody).order;
      var orig := Bodies(R.GetComponents(r, TBody));
      var pairs := Update(w, dt, r).value.1;
      && (forall p | p in pairs :: p.first in ids && p.second in ids && p.first < p.second)
      && (forall a, b | 0 <= a < |ids| && 0 <= b < |ids| ::
            (Pair(ids[a], ids[b]) in pairs <==> Recorded(StepOf(w, dt), PreOf(w, dt), ids, orig, a, b)))
      && NoDup(pairs)
      && Ascending(ids, pairs)
  {
    var bs := R.GetComponents(r, TBody);
    var ts := R.GetComponents(r, TTransform);
    var step, pre := StepOf(w, dt), PreOf(w, dt);
    UpdateOk(w, dt, r);
    var orig := Bodies(bs);
    StepFromPairs(step, pre, bs, ts, orig, 0);
    assert bs.order[0..] == bs.order;
  }

  // ---------------------------------------------------------------------
  // The narrow phase: `SolveCollisions`
  // ---------------------------------------------------------------------

  /** `norm` is a Euclidean length: the square root of `LengthSq`. The
      model takes `Vector3.Length` as such a function. */
  ghost predicate IsNorm(norm: Vec3 -> real) {
    forall v :: norm(v) >= 0.0 && norm(v) * norm(v) == LengthSq(v)
  }

  function Abs(x: real): (r: real)
    ensures r >= 0.0 && (r == x || r == -x)
  {
    if x < 0.0 then -x else x
  }

  /** The mass behind an inverse mass; inverse masses within 0.0001 of
      zero stand for infinite mass and give 0. */
  function MassOf(invMass: real): (r: real)
    ensures Abs(invMass) > 0.0001 ==> r * invMass == 1.0
    ensures Abs(invMass) <= 0.0001 ==> r == 0.0
  {
    if Abs(invMass) > 0.0001 then 1.0 / invMass else 0.0
  }

  /** What the solver does with one potential collision. */
  datatype Outcome =
    | NotTouching               // centres at least the radii apart
    | Separating                // the normal velocities point apart
    | Resolved(b1: Body, b2: Body)

  /** The unit normal, impulse and push-apart distance of a resolved pair. */
  datatype Impulse = Impulse(nh: Vec3, p: Vec3, dd: real)

  /** `p = n·(2·(i2 − i1))·im` and `d = (minDist − d)·im` with
      `im = 1/(m1 + m2)`, for the unit normal `nh` and distance `d`. */
  function ImpulseFor(s1: Body, s2: Body, d: real, nh: Vec3): (r: Impulse)
    requires MassOf(s1.invMass) + MassOf(s2.invMass) != 0.0
    ensures r.nh == nh
  {
    var im := 1.0 / (MassOf(s1.invMass) + MassOf(s2.invMass));
    Impulse(nh, Scale(2.0 * (Dot(s2.velocity, nh) - Dot(s1.velocity, nh)) * im, nh), (s1.radius + s2.radius - d) * im)
  }

  /** The first body moves along the normal and gains the impulse. */
  function PushFirst(s1: Body, imp: Impulse): (r: Body)
    ensures Sub(r.velocity, s1.velocity) == Scale(s1.invMass, imp.p)
  {
    s1.(position := Add(s1.position, Scale(imp.dd * s1.invMass, imp.nh)), velocity := Add(s1.velocity, Scale(s1.invMass, imp.p)))
  }

  /** The second body moves against the normal and loses the impulse. */
  function PushSecond(s2: Body, imp: Impulse): (r: Body)
    ensures Sub(r.velocity, s2.velocity) == Scale(-s2.invMass, imp.p)
  {
    s2.(position := Sub(s2.position, Scale(imp.dd * s2.invMass, imp.nh)), velocity := Sub(s2.velocity, Scale(s2.invMass, imp.p)))
  }

  /** The sphere-sphere test and impulse for one pair. The normal `n`
      points from the second centre to the first; `norm(n)` is its length.
      A zero normal (coincident centres) and a zero total mass make the
      engine divide by zero, which the model reports as `Degenerate`. */
  function Resolve(s1: Body, s2: Body, norm: Vec3 -> real): (r: Result<Outcome>)
    ensures r.Err? ==> r.error == Degenerate
    ensures LengthSq(Sub(s1.position, s2.position)) >= (s1.radius + s2.radius) * (s1.radius + s2.radius) <==>
            r == Ok(NotTouching)
  {
    var minDist := s1.radius + s2.radius;
    var n := Sub(s1.position, s2.position);
    if LengthSq(n) >= minDist * minDist then Ok(NotTouching)
    else if norm(n) == 0.0 then Err(Degenerate)
    else
      var nh := Scale(1.0 / norm(n), n);
      if Dot(s1.velocity, nh) > 0.0 && Dot(s2.velocity, nh) < 0.0 then Ok(Separating)
      else if MassOf(s1.invMass) + MassOf(s2.invMass) == 0.0 then Err(Degenerate)
      else
        var imp := ImpulseFor(s1, s2, norm(n), nh);
        Ok(Resolved(PushFirst(s1, imp), PushSecond(s2, imp)))
  }

  /** The impulse `Resolve` applies to a pair it resolves. */
  function ImpulseOf(s1: Body, s2: Body, norm: Vec3 -> real): (r: Impulse)
    requires Resolve(s1, s2, norm).Ok? && Resolve(s1, s2, norm).value.Resolved?
    ensures norm(Sub(s1.position, s2.position)) != 0.0
    ensures MassOf(s1.invMass) + MassOf(s2.invMass) != 0.0
    ensures r == ImpulseFor(s1, s2, norm(Sub(s1.position, s2.position)),
                            Scale(1.0 / norm(Sub(s1.position, s2.position)), Sub(s1.position, s2.position)))
    ensures Resolve(s1, s2, norm).value == Resolved(PushFirst(s1, r), PushSecond(s2, r))
  {
    var n := Sub(s1.position, s2.position);
    ImpulseFor(s1, s2, norm(n), Scale(1.0 / norm(n), n))
  }

  lemma ScaleScale(a: real, b: real, v: Vec3)
    ensures Scale(a, Scale(b, v)) == Scale(a * b, v)
  {
  }

  /** Equal and opposite impulses weighted by the masses cancel. */
  lemma CancelImpulse(m1: real, k1: real, m2: real, k2: real, p: Vec3)
    requires m1 * k1 == 1.0 && m2 * k2 == 1.0
    ensures Add(Scale(m1, Scale(k1, p)), Scale(m2, Scale(-k2, p))) == Zero
  {
    ScaleScale(m1, k1, p);
    ScaleScale(m2, -k2, p);
    assert m2 * -k2 == -1.0;
  }

  /** When both bodies have finite mass, the impulse conserves momentum:
      `m1·Δv1 + m2·Δv2 = 0`. */
  lemma MomentumConserved(s1: Body, s2: Body, norm: Vec3 -> real)
    requires Resolve(s1, s2, norm).Ok? && Resolve(s1, s2, norm).value.Resolved?
    requires Abs(s1.invMass) > 0.0001 && Abs(s2.invMass) > 0.0001
    ensures var o := Resolve(s1, s2, norm).value;
      Add(Scale(MassOf(s1.invMass), Sub(o.b1.velocity, s1.velocity)),
          Scale(MassOf(s2.invMass), Sub(o.b2.velocity, s2.velocity))) == Zero
  {
    var imp := ImpulseOf(s1, s2, norm);
    MomentumOfPush(s1, s2, imp);
  }

  /** The momentum change of the two pushes cancels for finite masses. */
  lemma MomentumOfPush(s1: Body, s2: Body, imp: Impulse)
    requires Abs(s1.invMass) > 0.0001 && Abs(s2.invMass) > 0.0001
    ensures Add(Scale(MassOf(s1.invMass), Sub(PushFirst(s1, imp).velocity, s1.velocity)),
                Scale(MassOf(s2.invMass), Sub(PushSecond(s2, imp).velocity, s2.velocity))) == Zero
  {
    CancelImpulse(MassOf(s1.invMass), s1.invMass, MassOf(s2.invMass), s2.invMass, imp.p);
  }

  lemma LengthSqScale(k: real, v: Vec3)
    ensures LengthSq(Scale(k, v)) == k * k * LengthSq(v)
  {
  }

  lemma DotAddScale(v: Vec3, c: real, u: Vec3)
    ensures Dot(Add(v, Scale(c, u)), u) == Dot(v, u) + c * Dot(u, u)
    ensures Dot(Sub(v, Scale(c, u)), u) == Dot(v, u) - c * Dot(u, u)
  {
    var p, q, s := u.x * u.x, u.y * u.y, u.z * u.z;
    assert Dot(u, u) == p + q + s;
    Distribute(v.x, c, u.x);
    Distribute(v.y, c, u.y);
    Distribute(v.z, c, u.z);
    Spread(c, p, q, s);
  }

  lemma Spread(c: real, p: real, q: real, s: real)
    ensures c * (p + q + s) == c * p + c * q + c * s
  {
  }

  lemma Distribute(a: real, c: real, b: real)
    ensures (a + c * b) * b == a * b + c * (b * b)
    ensures (a - c * b) * b == a * b - c * (b * b)
  {
  }

  /** The normal `n / |n|` of a non-zero `n` has length one. */
  lemma UnitNormal(n: Vec3, d: real)
    requires d != 0.0 && d * d == LengthSq(n)
    ensures LengthSq(Scale(1.0 / d, n)) == 1.0
  {
    LengthSqScale(1.0 / d, n);
    assert (1.0 / d) * (1.0 / d) * (d * d) == 1.0;
  }

  /** Two bodies of unit inverse mass (the default) exchange their normal
      velocities. */
  lemma UnitMassesSwapNormalVelocities(s1: Body, s2: Body, norm: Vec3 -> real)
    requires IsNorm(norm)
    requires s1.invMass == 1.0 && s2.invMass == 1.0
    requires Resolve(s1, s2, norm).Ok? && Resolve(s1, s2, norm).value.Resolved?
    ensures var o := Resolve(s1, s2, norm).value;
      var nh := ImpulseOf(s1, s2, norm).nh;
      && Dot(o.b1.velocity, nh) == Dot(s2.velocity, nh)
      && Dot(o.b2.velocity, nh) == Dot(s1.velocity, nh)
  {
    var imp := ImpulseOf(s1, s2, norm);
    var n := Sub(s1.position, s2.position);
    UnitNormal(n, norm(n));
    SwapOfPush(s1, s2, norm(n), imp.nh);
  }

  /** For unit inverse masses and a unit normal, the impulse swaps the
      normal velocities. */
  lemma SwapOfPush(s1: Body, s2: Body, d: real, nh: Vec3)
    requires s1.invMass == 1.0 && s2.invMass == 1.0 && LengthSq(nh) == 1.0
    ensures MassOf(s1.invMass) + MassOf(s2.invMass) != 0.0
    ensures var imp := ImpulseFor(s1, s2, d, nh);
      && Dot(PushFirst(s1, imp).velocity, nh) == Dot(s2.velocity, nh)
      && Dot(PushSecond(s2, imp).velocity, nh) == Dot(s1.velocity, nh)
  {
    assert MassOf(1.0) == 1.0;
    var imp := ImpulseFor(s1, s2, d, nh);
    var i1, i2 := Dot(s1.velocity, nh), Dot(s2.velocity, nh);
    var c := i2 - i1;
    var im := 1.0 / (MassOf(s1.invMass) + MassOf(s2.invMass));
    assert im == 0.5;
    assert 2.0 * c * im == c;
    assert imp.p == Scale(c, nh);
    ScaleScale(1.0, c, nh);
    assert Scale(1.0, imp.p) == Scale(c, nh);
    assert PushFirst(s1, imp).velocity == Add(s1.velocity, Scale(c, nh));
    assert PushSecond(s2, imp).velocity == Sub(s2.velocity, Scale(c, nh));
    DotAddScale(s1.velocity, c, nh);
    DotAddScale(s2.velocity, c, nh);
    MulEqual(c, Dot(nh, nh), 1.0);
  }

  /** One coordinate of `PushApart`. */
  lemma PushScalar(a: real, b: real, d: real, m: real)
    requires d != 0.0
    ensures var dd := (m - d) * (1.0 / (1.0 + 1.0));
      (a + dd * 1.0 * ((1.0 / d) * (a - b))) - (b - dd * 1.0 * ((1.0 / d) * (a - b))) == (m / d) * (a - b)
  {
    var e, q := a - b, 1.0 / d;
    assert q * d == 1.0;
    var dd := (m - d) * (1.0 / (1.0 + 1.0));
    assert dd * 1.0 * (q * e) == 0.5 * (m - d) * q * e;
    assert (m - d) * q * e == m * q * e - (d * q) * e;
    assert m / d == m * q;
  }

  /** Pushing two points `(minDist − d)/2` apart along the unit normal of
      their difference leaves them `minDist` apart along that normal. */
  lemma PushApart(p1: Vec3, p2: Vec3, d: real, minDist: real)
    requires d != 0.0
    ensures var nh := Scale(1.0 / d, Sub(p1, p2));
      var dd := (minDist - d) * (1.0 / (1.0 + 1.0));
      Sub(Add(p1, Scale(dd * 1.0, nh)), Sub(p2, Scale(dd * 1.0, nh))) == Scale(minDist / d, Sub(p1, p2))
  {
    PushScalar(p1.x, p2.x, d, minDist);
    PushScalar(p1.y, p2.y, d, minDist);
    PushScalar(p1.z, p2.z, d, minDist);
  }

  /** `(m / d)² · d² = m²`. */
  lemma SquareRatio(m: real, d: real)
    requires d != 0.0
    ensures (m / d) * (m / d) * (d * d) == m * m
  {
    var q := m / d;
    assert q * d == m;
    assert q * q * (d * d) == (q * d) * (q * d);
  }

  /** Two bodies of unit inverse mass end exactly the sum of their radii
      apart. */
  lemma UnitMassesEndTouching(s1: Body, s2: Body, norm: Vec3 -> real)
    requires IsNorm(norm)
    requires s1.invMass == 1.0 && s2.invMass == 1.0
    requires Resolve(s1, s2, norm).Ok? && Resolve(s1, s2, norm).value.Resolved?
    ensures var o := Resolve(s1, s2, norm).value;
      LengthSq(Sub(o.b1.position, o.b2.position)) == (s1.radius + s2.radius) * (s1.radius + s2.radius)
  {
    var imp := ImpulseOf(s1, s2, norm);
    var n := Sub(s1.position, s2.position);
    assert norm(n) * norm(n) == LengthSq(n);
    TouchOfPush(s1, s2, norm(n));
  }

  /** For unit inverse masses, pushing along the unit normal of the centre
      difference `n` with `d * d == |n|²` leaves the centres the sum of the
      radii apart. */
  lemma TouchOfPush(s1: Body, s2: Body, d: real)
    requires s1.invMass == 1.0 && s2.invMass == 1.0
    requires d != 0.0 && d * d == LengthSq(Sub(s1.position, s2.position))
    ensures MassOf(s1.invMass) + MassOf(s2.invMass) != 0.0
    ensures var imp := ImpulseFor(s1, s2, d, Scale(1.0 / d, Sub(s1.position, s2.position)));
      LengthSq(Sub(PushFirst(s1, imp).position, PushSecond(s2, imp).position)) ==
      (s1.radius + s2.radius) * (s1.radius + s2.radius)
  {
    var n := Sub(s1.position, s2.position);
    var minDist := s1.radius + s2.radius;
    assert MassOf(1.0) == 1.0;
    var imp := ImpulseFor(s1, s2, d, Scale(1.0 / d, n));
    assert imp.nh == Scale(1.0 / d, n);
    assert imp.dd == (minDist - d) * (1.0 / (1.0 + 1.0));
    assert PushFirst(s1, imp).position == Add(s1.position, Scale(imp.dd * 1.0, imp.nh));
    assert PushSecond(s2, imp).position == Sub(s2.position, Scale(imp.dd * 1.0, imp.nh));
    PushApart(s1.position, s2.position, d, minDist);
    LengthSqScale(minDist / d, n);
    MulEqual((minDist / d) * (minDist / d), LengthSq(n), d * d);
    SquareRatio(minDist, d);
  }

  lemma MulEqual(k: real, a: real, b: real)
    requires a == b
    ensures k * a == k * b
  {
  }

  // ---------------------------------------------------------------------
  // The solver over the body table
  // ---------------------------------------------------------------------

  /** `(CBody)scene.GetComponentFromEntity<CBody>(id)`: a missing entry
      throws, a component of another class fails the cast. */
  function BodyAt(r: R.Registry, id: int): (res: Result<Body>)
    ensures res.Ok? <==> R.Stored(r, TBody, id) && r.stores[TBody].entries[id].CBody?
    ensures res.Ok? ==> r.stores[TBody].entries[id] == CBody(res.value)
    ensures res.Err? && !R.Stored(r, TBody, id) ==> res.error == MissingKey
    ensures res.Err? && R.Stored(r, TBody, id) ==> res.error == InvalidCast
  {
    var c :- R.GetComponentFromEntity(r, TBody, id);
    AsBody(c)
  }

  /** True when `k` is neither end of any of the pairs. */
  predicate Untouched(pairs: seq<Pair>, k: int) {
    forall p | p in pairs :: p.first != k && p.second != k
  }

  /** One iteration of `SolveCollisions`: both bodies are read, and a
      resolved collision writes both new bodies back in place. The flag
      says whether the pair was resolved (and so raised an event). */
  function SolvePair(r: R.Registry, pr: Pair, norm: Vec3 -> real): (res: Result<(R.Registry, bool)>)
    requires R.Valid(r)
    ensures res.Ok? ==> R.Valid(res.value.0)
    ensures res.Ok? ==> res.value.0.entities == r.entities && res.value.0.counter == r.counter
    ensures res.Ok? ==> res.value.0.stores.Keys == r.stores.Keys
    ensures res.Ok? ==> forall k :: R.Stored(res.value.0, TBody, k) == R.Stored(r, TBody, k)
    ensures res.Ok? ==> forall t, k | t != TBody || (k != pr.first && k != pr.second) ::
              R.GetComponentFromEntity(res.value.0, t, k) == R.GetComponentFromEntity(r, t, k)
  {
    var s1 :- BodyAt(r, pr.first);
    var s2 :- BodyAt(r, pr.second);
    var o :- Resolve(s1, s2, norm);
    if o.Resolved? then Ok((StoreBodies(r, pr, o.b1, o.b2), true))
    else Ok((r, false))
  }

  /** Writes `b1` back to the first body of `pr` and then `b2` to the
      second; nothing else changes. */
  function StoreBodies(r: R.Registry, pr: Pair, b1: Body, b2: Body): (res: R.Registry)
    requires R.Valid(r) && R.Stored(r, TBody, pr.first) && R.Stored(r, TBody, pr.second)
    ensures R.Valid(res)
    ensures res.entities == r.entities && res.counter == r.counter
    ensures res.stores.Keys == r.stores.Keys
    ensures forall k :: R.Stored(res, TBody, k) == R.Stored(r, TBody, k)
    ensures forall t, k | t != TBody || (k != pr.first && k != pr.second) ::
              R.GetComponentFromEntity(res, t, k) == R.GetComponentFromEntity(r, t, k)
    ensures R.GetComponentFromEntity(res, TBody, pr.second) == Ok(CBody(b2))
    ensures pr.first != pr.second ==> R.GetComponentFromEntity(res, TBody, pr.first) == Ok(CBody(b1))
  {
    var r1 := R.SetComponent(r, TBody, pr.first, CBody(b1));
    R.SetComponent(r1, TBody, pr.second, CBody(b2))
  }

  /** A pair fails only on a missing or mistyped body or a degenerate
      collision; a pair that is not touching or is separating leaves the
      registry as it was and raises nothing; a resolved pair stores the
      two new bodies. */
  lemma SolvePairOutcome(r: R.Registry, pr: Pair, norm: Vec3 -> real)
    requires R.Valid(r)
    ensures SolvePair(r, pr, norm).Ok? <==>
            BodyAt(r, pr.first).Ok? && BodyAt(r, pr.second).Ok? &&
            Resolve(BodyAt(r, pr.first).value, BodyAt(r, pr.second).value, norm).Ok?
    ensures SolvePair(r, pr, norm).Ok? ==>
              var o := Resolve(BodyAt(r, pr.first).value, BodyAt(r, pr.second).value, norm).value;
              var res := SolvePair(r, pr, norm).value;
              && (res.1 <==> o.Resolved?)
              && (!o.Resolved? ==> res.0 == r)
              && (o.Resolved? && pr.first != pr.second ==>
                    BodyAt(res.0, pr.first) == Ok(o.b1) && BodyAt(res.0, pr.second) == Ok(o.b2))
  {
  }

  /** `SolveCollisions()`: the pairs in order, each against the bodies as
      the earlier pairs left them. Returns the resolved pairs. */
  function SolveCollisions(r: R.Registry, pairs: seq<Pair>, norm: Vec3 -> real): (res: Result<(R.Registry, seq<Pair>)>)
    requires R.Valid(r)
    ensures res.Ok? ==> R.Valid(res.value.0)
    ensures res.Ok? ==> res.value.0.entities == r.entities && res.value.0.counter == r.counter
    ensures res.Ok? ==> res.value.0.stores.Keys == r.stores.Keys
    ensures res.Ok? ==> forall k :: R.Stored(res.value.0, TBody, k) == R.Stored(r, TBody, k)
    ensures res.Ok? ==> forall t, k | t != TBody || Untouched(pairs, k) ::
              R.GetComponentFromEntity(res.value.0, t, k) == R.GetComponentFromEntity(r, t, k)
    ensures res.Ok? ==> |res.value.1| <= |pairs| && forall p | p in res.value.1 :: p in pairs
    decreases |pairs|
  {
    if |pairs| == 0 then Ok((r, []))
    else
      var head :- SolvePair(r, pairs[0], norm);
      var rest :- SolveCollisions(head.0, pairs[1..], norm);
      assert forall k | Untouched(pairs, k) :: Untouched(pairs[1..], k) && pairs[0].first != k && pairs[0].second != k;
      Ok((rest.0, (if head.1 then [pairs[0]] else []) + rest.1))
  }

  /** One more pair after a run of the solver: it is solved against the
      registry the run left, and reported after the run's pairs iff it
      resolved. A failed run stays failed. */
  function SolveNext(prev: Result<(R.Registry, seq<Pair>)>, p: Pair, norm: Vec3 -> real): (res: Result<(R.Registry, seq<Pair>)>)
    requires prev.Ok? ==> R.Valid(prev.value.0)
    ensures prev.Err? ==> res == prev
    ensures res.Ok? ==> prev.Ok? && SolvePair(prev.value.0, p, norm).Ok?
    ensures prev.Ok? && SolvePair(prev.value.0, p, norm).Ok? ==> res.Ok?
    ensures prev.Ok? && SolvePair(prev.value.0, p, norm).Err? ==> res == Err(SolvePair(prev.value.0, p, norm).error)
    ensures res.Ok? ==> res.value.0 == SolvePair(prev.value.0, p, norm).value.0
    ensures res.Ok? && SolvePair(prev.value.0, p, norm).value.1 ==> res.value.1 == prev.value.1 + [p]
    ensures res.Ok? && !SolvePair(prev.value.0, p, norm).value.1 ==> res.value.1 == prev.value.1
  {
    var run :- prev;
    var s :- SolvePair(run.0, p, norm);
    Ok((s.0, run.1 + (if s.1 then [p] else [])))
  }

  lemma SnocParts<T>(a: seq<T>, p: T)
    requires |a| > 0
    ensures (a + [p])[0] == a[0] && (a + [p])[1..] == a[1..] + [p]
  {
  }

  lemma AppendAssoc<T>(x: seq<T>, y: seq<T>, z: seq<T>)
    ensures x + (y + z) == (x + y) + z
  {
  }

  /** One unfolding of `SolveCollisions` on a non-empty list: the first
      pair, then the rest against what it left. */
  lemma SolveUnfold(r: R.Registry, pairs: seq<Pair>, norm: Vec3 -> real)
    requires R.Valid(r) && |pairs| > 0
    ensures SolvePair(r, pairs[0], norm).Err? ==>
              SolveCollisions(r, pairs, norm) == Err(SolvePair(r, pairs[0], norm).error)
    ensures SolvePair(r, pairs[0], norm).Ok? ==>
              var head := SolvePair(r, pairs[0], norm).value;
              var rest := SolveCollisions(head.0, pairs[1..], norm);
              && (rest.Err? ==> SolveCollisions(r, pairs, norm) == Err(rest.error))
              && (rest.Ok? ==>
                    SolveCollisions(r, pairs, norm) == Ok((rest.value.0, (if head.1 then [pairs[0]] else []) + rest.value.1)))
  {
  }

  /** The solver read from the other end: solving `a` followed by `p` is
      solving `a` and then `p` against what `a` left. So the reported
      pairs are exactly the pairs, in order, whose own step resolved
      against the bodies the earlier pairs left. */
  lemma {:induction false} SolveSnoc(r: R.Registry, a: seq<Pair>, p: Pair, norm: Vec3 -> real)
    requires R.Valid(r)
    ensures SolveCollisions(r, a + [p], norm) == SolveNext(SolveCollisions(r, a, norm), p, norm)
    decreases |a|
  {
    var ap := a + [p];
    SolveUnfold(r, ap, norm);
    if |a| == 0 {
      assert ap[0] == p && ap[1..] == [];
      assert SolveCollisions(r, a, norm) == Ok((r, []));
      var last := SolvePair(r, p, norm);
      if last.Ok? {
        var tail := if last.value.1 then [p] else [];
        assert SolveCollisions(last.value.0, [], norm) == Ok((last.value.0, []));
        assert tail + [] == [] + tail;
      }
    } else {
      assert ap[0] == a[0] && ap[1..] == a[1..] + [p];
      var head := SolvePair(r, a[0], norm);
      if head.Ok? {
        SolveSnoc(head.value.0, a[1..], p, norm);
        SolveSnocStep(r, a, p, norm);
      } else {
        SolveUnfold(r, a, norm);
      }
    }
  }

  lemma SolveSnocStep(r: R.Registry, a: seq<Pair>, p: Pair, norm: Vec3 -> real)
    requires R.Valid(r) && |a| > 0 && SolvePair(r, a[0], norm).Ok?
    requires var h := SolvePair(r, a[0], norm).value.0;
      SolveCollisions(h, a[1..] + [p], norm) == SolveNext(SolveCollisions(h, a[1..], norm), p, norm)
    ensures SolveCollisions(r, a + [p], norm) == SolveNext(SolveCollisions(r, a, norm), p, norm)
  {
    var ap := a + [p];
    SnocParts(a, p);
    SolveUnfold(r, ap, norm);
    SolveUnfold(r, a, norm);
    var head := SolvePair(r, a[0], norm).value;
    var rest := SolveCollisions(head.0, a[1..], norm);
    var restp := SolveCollisions(head.0, a[1..] + [p], norm);
    var whole := SolveCollisions(r, a, norm);
    if rest.Err? {
      assert restp == rest;
      assert whole == Err(rest.error);
    } else {
      var front := if head.1 then [a[0]] else [];
      assert whole == Ok((rest.value.0, front + rest.value.1));
      var last := SolvePair(rest.value.0, p, norm);
      if last.Err? {
        assert restp == Err(last.error);
        assert SolveNext(whole, p, norm) == Err(last.error);
      } else {
        var tail := if last.value.1 then [p] else [];
        assert restp == Ok((last.value.0, rest.value.1 + tail));
        assert SolveNext(whole, p, norm) == Ok((last.value.0, (front + rest.value.1) + tail));
        AppendAssoc(front, rest.value.1, tail);
      }
    }
  }

  /** When no pair collides, the solver changes nothing and raises
      nothing. */
  lemma {:induction false} NoCollisionNoChange(r: R.Registry, pairs: seq<Pair>, norm: Vec3 -> real)
    requires R.Valid(r)
    requires forall p | p in pairs ::
               BodyAt(r, p.first).Ok? && BodyAt(r, p.second).Ok? &&
               Resolve(BodyAt(r, p.first).value, BodyAt(r, p.second).value, norm).Ok? &&
               !Resolve(BodyAt(r, p.first).value, BodyAt(r, p.second).value, norm).value.Resolved?
    ensures SolveCollisions(r, pairs, norm) == Ok((r, []))
    decreases |pairs|
  {
    if |pairs| > 0 {
      SolvePairOutcome(r, pairs[0], norm);
      assert SolvePair(r, pairs[0], norm) == Ok((r, false));
      assert forall p | p in pairs[1..] :: p in pairs;
      NoCollisionNoChange(r, pairs[1..], norm);
    }
  }

  /** The events of a run that resolved `resolved`: one `collision` event
      with no data per resolved pair. */
  function CollisionEvents(sc: Sc.Scene, resolved: seq<Pair>): (r: seq<Sc.Invocation>)
    decreases |resolved|
  {
    if |resolved| == 0 then [] else Sc.Raise(sc, "collision", Sc.NoData) + CollisionEvents(sc, resolved[1..])
  }

  /** Each resolved pair raises `collision` exactly once: every callback
      registered for it runs once per resolved pair, always with no data. */
  lemma {:induction false} CollisionEventsCount(sc: Sc.Scene, resolved: seq<Pair>)
    ensures |CollisionEvents(sc, resolved)| == |resolved| * |Sc.Raise(sc, "collision", Sc.NoData)|
    ensures forall i | 0 <= i < |CollisionEvents(sc, resolved)| :: CollisionEvents(sc, resolved)[i].data == Sc.NoData
    decreases |resolved|
  {
    if |resolved| > 0 {
      CollisionEventsCount(sc, resolved[1..]);
      var one := Sc.Raise(sc, "collision", Sc.NoData);
      var all := CollisionEvents(sc, resolved);
      assert all == one + CollisionEvents(sc, resolved[1..]);
      forall i | 0 <= i < |all| ensures all[i].data == Sc.NoData {
        if i >= |one| {
          assert all[i] == CollisionEvents(sc, resolved[1..])[i - |one|];
        }
      }
    }
  }

  /** `PhysicsSystem.Update(t, dt)` on a scene: the integration loop, then
      the solver over the pairs it found. Returns the scene, the pairs and
      the event callbacks run. */
  function SystemUpdate(w: World, dt: real, norm: Vec3 -> real, sc: Sc.Scene): (res: Result<(Sc.Scene, seq<Pair>, seq<Sc.Invocation>)>)
    requires R.Valid(sc.reg)
    ensures res.Ok? <==> Update(w, dt, sc.reg).Ok? &&
                         SolveCollisions(Update(w, dt, sc.reg).value.0, Update(w, dt, sc.reg).value.1, norm).Ok?
    ensures res.Ok? ==> R.Valid(res.value.0.reg) && res.value.0.reg.entities == sc.reg.entities
    ensures res.Ok? ==> res.value.1 == Update(w, dt, sc.reg).value.1
    ensures res.Ok? ==> res.value.0 == sc.(reg := res.value.0.reg)
    ensures res.Ok? ==>
              var resolved := SolveCollisions(Update(w, dt, sc.reg).value.0, Update(w, dt, sc.reg).value.1, norm).value.1;
              && res.value.0.reg == SolveCollisions(Update(w, dt, sc.reg).value.0, Update(w, dt, sc.reg).value.1, norm).value.0
              && res.value.2 == CollisionEvents(sc, resolved)
              && |res.value.2| == |resolved| * |Sc.Raise(sc, "collision", Sc.NoData)|
              && forall i | 0 <= i < |res.value.2| :: res.value.2[i].data == Sc.NoData
  {
    var stepped :- Update(w, dt, sc.reg);
    var solved :- SolveCollisions(stepped.0, stepped.1, norm);
    CollisionEventsCount(sc, solved.1);
    Ok((sc.(reg := solved.0), stepped.1, CollisionEvents(sc, solved.1)))
  }
}
