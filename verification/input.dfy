/** The keyboard rules of `InputSystem` (`Systems/InputSystem.cs`): every
    entity with a `CInput` that also has a `CBody` gets its velocity nudged
    by the movement keys, and one that has a `CCamera` turns its heading
    with the camera keys. The keyboard state is the set of keys held. */
module Input {
  import opened Wrappers
  import opened Vectors
  import opened Components
  import R = Registry

  /** The velocity change one movement key gives. */
  const Nudge: real := 5.0

  /** The heading change one camera key gives. */
  const TurnStep: real := 0.05

  function Signed(held: bool, d: real): (r: real)
    ensures held ==> r == d
    ensures !held ==> r == 0.0
  {
    if held then d else 0.0
  }

  /** The movement keys: forward and backward move along Z (forward is
      negative), left and right along X (left is negative), each
      independently; nothing else of the body changes. */
  function Move(b: Body, keys: set<Key>, k: InputKeys): (r: Body)
    ensures r.velocity.y == b.velocity.y
    ensures r == b.(velocity := r.velocity)
    ensures r.velocity.z == b.velocity.z - Signed(k.forward in keys, Nudge) + Signed(k.backward in keys, Nudge)
    ensures r.velocity.x == b.velocity.x - Signed(k.left in keys, Nudge) + Signed(k.right in keys, Nudge)
  {
    var vz := b.velocity.z;
    var vz1 := if k.forward in keys then vz - Nudge else vz;
    var vz2 := if k.backward in keys then vz1 + Nudge else vz1;
    var vx := b.velocity.x;
    var vx1 := if k.left in keys then vx - Nudge else vx;
    var vx2 := if k.right in keys then vx1 + Nudge else vx1;
    b.(velocity := b.velocity.(x := vx2, z := vz2))
  }

  /** Opposite movement keys held together cancel, and with no movement
      key held the body is unchanged. */
  lemma OppositeKeysCancel(b: Body, keys: set<Key>, k: InputKeys)
    ensures k.forward in keys && k.backward in keys ==> Move(b, keys, k).velocity.z == b.velocity.z
    ensures k.left in keys && k.right in keys ==> Move(b, keys, k).velocity.x == b.velocity.x
    ensures k.forward !in keys && k.backward !in keys && k.left !in keys && k.right !in keys ==>
              Move(b, keys, k) == b
  {
  }

  /** `CAMERASPEED`: the share of the forward vector one camera-forward or
      camera-backward press moves the camera and its target. */
  const CameraSpeed: real := 0.1

  /** `Math.Sin` and `Math.Cos` of a heading plus a quarter turn, the two
      values every camera key uses. They come from the runtime's
      floating-point library, so the model takes them as a parameter. */
  datatype Trig = Trig(sinQ: real -> real, cosQ: real -> real)

  /** The offset from the target the camera sits at after a turn:
      `(d·sin(h+π/2), height, −d·cos(h+π/2))` for distance `d` and heading
      `h`. */
  function Orbit(c: Camera, tr: Trig): Vec3 {
    Vec3(c.distance as real * tr.sinQ(c.heading), c.height as real, -(c.distance as real) * tr.cosQ(c.heading))
  }

  /** The move of one camera-forward press: `CAMERASPEED` times the
      horizontal part of `Orbit`. */
  function Ahead(c: Camera, tr: Trig): Vec3 {
    Scale(CameraSpeed, Vec3(c.distance as real * tr.sinQ(c.heading), 0.0, -(c.distance as real) * tr.cosQ(c.heading)))
  }

  /** A camera together with the position of its entity's transform. */
  datatype Rig = Rig(camera: Camera, position: Vec3)

  /** The four camera keys, in the order the loop tests them: forward and
      backward slide the camera and its target together along `Ahead`;
      left and right turn the heading and then put the camera back on its
      orbit around the target. */
  function Drive(c: Camera, pos: Vec3, keys: set<Key>, k: InputKeys, tr: Trig): (r: Rig)
    ensures r.camera == c.(heading := r.camera.heading, target := r.camera.target)
    ensures r.camera.heading == c.heading - Signed(k.camLeft in keys, TurnStep) + Signed(k.camRight in keys, TurnStep)
    ensures r.camera.target == Add(c.target, Scale(Signed(k.camForward in keys, 1.0) - Signed(k.camBackward in keys, 1.0), Ahead(c, tr)))
    ensures (k.camLeft in keys || k.camRight in keys) ==> r.position == Sub(r.camera.target, Orbit(r.camera, tr))
    ensures !(k.camLeft in keys || k.camRight in keys) ==>
              r.position == Add(pos, Scale(Signed(k.camForward in keys, 1.0) - Signed(k.camBackward in keys, 1.0), Ahead(c, tr)))
  {
    var f := if k.camForward in keys then Rig(c.(target := Add(c.target, Ahead(c, tr))), Add(pos, Ahead(c, tr))) else Rig(c, pos);
    var b := if k.camBackward in keys then Rig(f.camera.(target := Sub(f.camera.target, Ahead(f.camera, tr))), Sub(f.position, Ahead(f.camera, tr))) else f;
    var l := if k.camLeft in keys then var cl := b.camera.(heading := b.camera.heading - TurnStep); Rig(cl, Sub(cl.target, Orbit(cl, tr))) else b;
    if k.camRight in keys then var cr := l.camera.(heading := l.camera.heading + TurnStep); Rig(cr, Sub(cr.target, Orbit(cr, tr))) else l
  }

  /** Opposite camera keys cancel: forward with backward leaves the target
      where it was, left with right leaves the heading, and with no camera
      key held nothing moves. */
  lemma DriveCancels(c: Camera, pos: Vec3, keys: set<Key>, k: InputKeys, tr: Trig)
    ensures k.camForward in keys && k.camBackward in keys ==> Drive(c, pos, keys, k, tr).camera.target == c.target
    ensures k.camLeft in keys && k.camRight in keys ==> Drive(c, pos, keys, k, tr).camera.heading == c.heading
    ensures k.camForward !in keys && k.camBackward !in keys && k.camLeft !in keys && k.camRight !in keys ==>
              Drive(c, pos, keys, k, tr) == Rig(c, pos)
  {
  }

  /** `(CX)Scene.GetComponentFromEntity<CX>(id)` for a camera. */
  function CameraAt(r: R.Registry, id: int): (res: Result<Camera>)
    ensures res.Ok? <==> R.Stored(r, TCamera, id) && r.stores[TCamera].entries[id].CCamera?
    ensures res.Ok? ==> r.stores[TCamera].entries[id] == CCamera(res.value)
  {
    var c :- R.GetComponentFromEntity(r, TCamera, id);
    AsCamera(c)
  }

  /** The same for a transform. */
  function TransformAt(r: R.Registry, id: int): (res: Result<Transform>)
    ensures res.Ok? <==> R.Stored(r, TTransform, id) && r.stores[TTransform].entries[id].CTransform?
    ensures res.Ok? ==> r.stores[TTransform].entries[id] == CTransform(res.value)
  {
    var c :- R.GetComponentFromEntity(r, TTransform, id);
    AsTransform(c)
  }

  function BodyAt(r: R.Registry, id: int): (res: Result<Body>)
    ensures res.Ok? <==> R.Stored(r, TBody, id) && r.stores[TBody].entries[id].CBody?
    ensures res.Ok? ==> r.stores[TBody].entries[id] == CBody(res.value)
  {
    var c :- R.GetComponentFromEntity(r, TBody, id);
    AsBody(c)
  }

  /** What the camera half does to the entity `id`: its camera and the
      position of its transform as `Drive` leaves them. */
  predicate Driven(r: R.Registry, out: R.Registry, keys: set<Key>, id: int, inp: Component, tr: Trig)
  {
    && inp.CInput? && CameraAt(r, id).Ok? && TransformAt(r, id).Ok?
    && var rig := Drive(CameraAt(r, id).value, TransformAt(r, id).value.position, keys, inp.keys, tr);
       && R.GetComponentFromEntity(out, TCamera, id) == Ok(CCamera(rig.camera))
       && R.GetComponentFromEntity(out, TTransform, id) == Ok(CTransform(TransformAt(r, id).value.(position := rig.position)))
  }

  /** The camera half of one iteration: for an entity with a camera, the
      transform, the input and the camera are fetched (each cast must
      succeed) and the camera keys applied to the camera and the
      transform's position. */
  function SteerCamera(r: R.Registry, keys: set<Key>, id: int, inp: Component, tr: Trig): (res: Result<R.Registry>)
    requires R.Valid(r)
    ensures res.Ok? ==> TCamera in r.stores
    ensures res.Ok? ==> R.Valid(res.value) && res.value.entities == r.entities && res.value.counter == r.counter
    ensures res.Ok? ==> res.value.stores.Keys == r.stores.Keys
    ensures res.Ok? ==> forall t, k | k != id || (t != TCamera && t != TTransform) ::
              R.Stored(res.value, t, k) == R.Stored(r, t, k) &&
              R.GetComponentFromEntity(res.value, t, k) == R.GetComponentFromEntity(r, t, k)
    ensures res.Ok? && !R.Stored(r, TCamera, id) ==> res.value == r
  {
    var hasCamera :- R.EntityHasComponent(r, TCamera, id);
    if !hasCamera then Ok(r)
    else
      var tf :- TransformAt(r, id);
      var k :- AsInput(inp);
      var cam :- CameraAt(r, id);
      var rig := Drive(cam, tf.position, keys, k, tr);
      var r1 := R.SetComponent(r, TTransform, id, CTransform(tf.(position := rig.position)));
      Ok(R.SetComponent(r1, TCamera, id, CCamera(rig.camera)))
  }

  /** An entity with a camera leaves `SteerCamera` driven. */
  lemma SteerCameraDrives(r: R.Registry, keys: set<Key>, id: int, inp: Component, tr: Trig)
    requires R.Valid(r) && SteerCamera(r, keys, id, inp, tr).Ok? && R.Stored(r, TCamera, id)
    ensures Driven(r, SteerCamera(r, keys, id, inp, tr).value, keys, id, inp, tr)
  {
  }

  /** What the movement keys do to the entity `id`: its body as `Move`
      leaves it. */
  predicate Nudged(r: R.Registry, out: R.Registry, keys: set<Key>, id: int, inp: Component)
  {
    && inp.CInput? && BodyAt(r, id).Ok?
    && R.GetComponentFromEntity(out, TBody, id) == Ok(CBody(Move(BodyAt(r, id).value, keys, inp.keys)))
  }

  /** The tables an input entity's iteration may write. */
  predicate Steered(t: TypeTag)
  {
    t == TBody || t == TCamera || t == TTransform
  }

  /** One iteration of `Update` for the input entity `id` whose `CInput`
      entry is `inp`: the camera half, then, if the entity has a body, the
      movement keys. */
  function Steer(r: R.Registry, keys: set<Key>, id: int, inp: Component, tr: Trig): (res: Result<R.Registry>)
    requires R.Valid(r)
    ensures res.Ok? ==> TCamera in r.stores && TBody in r.stores
    ensures res.Ok? ==> R.Valid(res.value) && res.value.entities == r.entities && res.value.counter == r.counter
    ensures res.Ok? ==> res.value.stores.Keys == r.stores.Keys
    ensures res.Ok? ==> forall t, k | k != id || !Steered(t) ::
              R.Stored(res.value, t, k) == R.Stored(r, t, k) &&
              R.GetComponentFromEntity(res.value, t, k) == R.GetComponentFromEntity(r, t, k)
    ensures res.Ok? && R.Stored(r, TBody, id) ==> Nudged(r, res.value, keys, id, inp)
    ensures res.Ok? && !R.Stored(r, TBody, id) ==>
              R.GetComponentFromEntity(res.value, TBody, id) == R.GetComponentFromEntity(r, TBody, id)
    ensures res.Ok? && !R.Stored(r, TCamera, id) ==>
              R.GetComponentFromEntity(res.value, TCamera, id) == R.GetComponentFromEntity(r, TCamera, id) &&
              R.GetComponentFromEntity(res.value, TTransform, id) == R.GetComponentFromEntity(r, TTransform, id)
  {
    var r1 :- SteerCamera(r, keys, id, inp, tr);
    var hasBody :- R.EntityHasComponent(r1, TBody, id);
    if !hasBody then Ok(r1)
    else
      var b :- BodyAt(r1, id);
      var k :- AsInput(inp);
      Ok(R.SetComponent(r1, TBody, id, CBody(Move(b, keys, k))))
  }

  /** An input entity with a camera leaves `Steer` driven: the body write
      that follows the camera half touches neither its camera nor its
      transform. */
  lemma SteerDrives(r: R.Registry, keys: set<Key>, id: int, inp: Component, tr: Trig)
    requires R.Valid(r) && Steer(r, keys, id, inp, tr).Ok? && R.Stored(r, TCamera, id)
    ensures Driven(r, Steer(r, keys, id, inp, tr).value, keys, id, inp, tr)
  {
    SteerCameraDrives(r, keys, id, inp, tr);
    var r1 := SteerCamera(r, keys, id, inp, tr).value;
    var out := Steer(r, keys, id, inp, tr).value;
    if R.Stored(r1, TBody, id) {
      var b := BodyAt(r1, id).value;
      var k := AsInput(inp).value;
      assert out == R.SetComponent(r1, TBody, id, CBody(Move(b, keys, k)));
    } else {
      assert out == r1;
    }
    assert R.GetComponentFromEntity(out, TCamera, id) == R.GetComponentFromEntity(r1, TCamera, id);
    assert R.GetComponentFromEntity(out, TTransform, id) == R.GetComponentFromEntity(r1, TTransform, id);
  }

  /** `InputSystem.Update(t, dt)`: `Steer` for each `CInput` entry, in the
      table's order (the `CInput` table itself is not written). */
  function SteerAll(r: R.Registry, keys: set<Key>, ids: seq<int>, inputs: map<int, Component>, tr: Trig): (res: Result<R.Registry>)
    requires R.Valid(r) && forall j | 0 <= j < |ids| :: ids[j] in inputs
    ensures res.Ok? ==> R.Valid(res.value) && res.value.entities == r.entities
    ensures res.Ok? ==> res.value.stores.Keys == r.stores.Keys
    decreases |ids|
  {
    if |ids| == 0 then Ok(r)
    else
      var r1 :- Steer(r, keys, ids[0], inputs[ids[0]], tr);
      SteerAll(r1, keys, ids[1..], inputs, tr)
  }

  /** The tail of a duplicate-free sequence is duplicate-free and does not
      hold the head. */
  lemma TailFresh(ids: seq<int>)
    requires |ids| > 0 && forall i, j | 0 <= i < j < |ids| :: ids[i] != ids[j]
    ensures forall i, j | 0 <= i < j < |ids[1..]| :: ids[1..][i] != ids[1..][j]
    ensures ids[0] !in ids[1..]
  {
    var tail := ids[1..];
    forall i, j | 0 <= i < j < |tail| ensures tail[i] != tail[j] {
      assert tail[i] == ids[i + 1] && tail[j] == ids[j + 1];
    }
    forall j | 0 <= j < |tail| ensures tail[j] != ids[0] {
      assert tail[j] == ids[j + 1];
    }
  }

  /** The pass writes only the bodies, cameras and transforms of the input
      entities. */
  lemma {:induction false} SteerAllOthers(r: R.Registry, keys: set<Key>, ids: seq<int>, inputs: map<int, Component>, tr: Trig)
    requires R.Valid(r) && (forall j | 0 <= j < |ids| :: ids[j] in inputs)
    requires SteerAll(r, keys, ids, inputs, tr).Ok?
    ensures forall t, k | k !in ids || !Steered(t) ::
              R.GetComponentFromEntity(SteerAll(r, keys, ids, inputs, tr).value, t, k) == R.GetComponentFromEntity(r, t, k)
    decreases |ids|
  {
    if |ids| > 0 {
      var r1 := Steer(r, keys, ids[0], inputs[ids[0]], tr).value;
      SteerAllOthers(r1, keys, ids[1..], inputs, tr);
      forall t, k | k !in ids || !Steered(t)
        ensures R.GetComponentFromEntity(SteerAll(r, keys, ids, inputs, tr).value, t, k) == R.GetComponentFromEntity(r, t, k)
      {
        if k !in ids {
          assert k !in ids[1..] && k != ids[0];
        }
        assert R.GetComponentFromEntity(r1, t, k) == R.GetComponentFromEntity(r, t, k);
      }
    }
  }

  /** An input entity with a body gets its velocity nudged once. */
  lemma {:induction false} SteerAllBodies(r: R.Registry, keys: set<Key>, ids: seq<int>, inputs: map<int, Component>, tr: Trig)
    requires R.Valid(r) && (forall j | 0 <= j < |ids| :: ids[j] in inputs)
    requires forall i, j | 0 <= i < j < |ids| :: ids[i] != ids[j]
    requires SteerAll(r, keys, ids, inputs, tr).Ok?
    ensures forall j | 0 <= j < |ids| && R.Stored(r, TBody, ids[j]) ::
              Nudged(r, SteerAll(r, keys, ids, inputs, tr).value, keys, ids[j], inputs[ids[j]])
    decreases |ids|
  {
    if |ids| > 0 {
      var id := ids[0];
      var r1 := Steer(r, keys, id, inputs[id], tr).value;
      var tail := ids[1..];
      TailFresh(ids);
      SteerAllBodies(r1, keys, tail, inputs, tr);
      SteerAllOthers(r1, keys, tail, inputs, tr);
      var out := SteerAll(r, keys, ids, inputs, tr).value;
      assert out == SteerAll(r1, keys, tail, inputs, tr).value;
      forall j | 0 <= j < |ids| && R.Stored(r, TBody, ids[j])
        ensures Nudged(r, out, keys, ids[j], inputs[ids[j]])
      {
        if j > 0 {
          assert ids[j] == tail[j - 1] && ids[j] != id;
          assert BodyAt(r1, ids[j]) == BodyAt(r, ids[j]);
          assert Nudged(r1, out, keys, ids[j], inputs[ids[j]]);
        } else {
          assert Nudged(r, r1, keys, id, inputs[id]);
          assert R.GetComponentFromEntity(out, TBody, id) == R.GetComponentFromEntity(r1, TBody, id);
        }
      }
    }
  }

  /** An input entity with a camera gets its camera and its transform's
      position driven once. */
  lemma {:induction false} SteerAllCameras(r: R.Registry, keys: set<Key>, ids: seq<int>, inputs: map<int, Component>, tr: Trig)
    requires R.Valid(r) && (forall j | 0 <= j < |ids| :: ids[j] in inputs)
    requires forall i, j | 0 <= i < j < |ids| :: ids[i] != ids[j]
    requires SteerAll(r, keys, ids, inputs, tr).Ok?
    ensures forall j | 0 <= j < |ids| && R.Stored(r, TCamera, ids[j]) ::
              Driven(r, SteerAll(r, keys, ids, inputs, tr).value, keys, ids[j], inputs[ids[j]], tr)
    decreases |ids|
  {
    if |ids| > 0 {
      var id := ids[0];
      var r1 := Steer(r, keys, id, inputs[id], tr).value;
      var tail := ids[1..];
      TailFresh(ids);
      SteerAllCameras(r1, keys, tail, inputs, tr);
      SteerAllOthers(r1, keys, tail, inputs, tr);
      var out := SteerAll(r, keys, ids, inputs, tr).value;
      assert out == SteerAll(r1, keys, tail, inputs, tr).value;
      forall j | 0 <= j < |ids| && R.Stored(r, TCamera, ids[j])
        ensures Driven(r, out, keys, ids[j], inputs[ids[j]], tr)
      {
        if j > 0 {
          assert ids[j] == tail[j - 1] && ids[j] != id;
          assert CameraAt(r1, ids[j]) == CameraAt(r, ids[j]);
          assert TransformAt(r1, ids[j]) == TransformAt(r, ids[j]);
          assert Driven(r1, out, keys, ids[j], inputs[ids[j]], tr);
        } else {
          SteerDrives(r, keys, id, inputs[id], tr);
          assert R.GetComponentFromEntity(out, TCamera, id) == R.GetComponentFromEntity(r1, TCamera, id);
          assert R.GetComponentFromEntity(out, TTransform, id) == R.GetComponentFromEntity(r1, TTransform, id);
        }
      }
    }
  }

  /** `Update` over the registry: the `CInput` table's entries in order
      (an unregistered table has none). */
  function Update(r: R.Registry, keys: set<Key>, tr: Trig): (res: Result<R.Registry>)
    requires R.Valid(r)
    ensures res.Ok? ==> R.Valid(res.value) && res.value.entities == r.entities
  {
    var inputs := R.GetComponents(r, TInput);
    SteerAll(r, keys, inputs.order, inputs.entries, tr)
  }

  /** A successful `Update` drives the camera and transform of every input
      entity that has a camera, nudges the body of every input entity that
      has one, each once, and changes nothing else. */
  lemma UpdateSteers(r: R.Registry, keys: set<Key>, tr: Trig)
    requires R.Valid(r) && Update(r, keys, tr).Ok?
    ensures var inputs := R.GetComponents(r, TInput);
      var out := Update(r, keys, tr).value;
      && (forall t, k | k !in inputs.entries || !Steered(t) ::
            R.GetComponentFromEntity(out, t, k) == R.GetComponentFromEntity(r, t, k))
      && (forall k | k in inputs.entries && R.Stored(r, TBody, k) ::
            Nudged(r, out, keys, k, inputs.entries[k]))
      && (forall k | k in inputs.entries && R.Stored(r, TCamera, k) ::
            Driven(r, out, keys, k, inputs.entries[k], tr))
  {
    var inputs := R.GetComponents(r, TInput);
    var ids := inputs.order;
    SteerAllOthers(r, keys, ids, inputs.entries, tr);
    SteerAllBodies(r, keys, ids, inputs.entries, tr);
    SteerAllCameras(r, keys, ids, inputs.entries, tr);
    forall k | k in inputs.entries ensures exists j :: 0 <= j < |ids| && ids[j] == k {
      assert k in ids;
    }
  }
}
