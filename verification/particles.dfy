/** `ParticleSystem` (`Systems/ParticleSystem.cs`): a queue of spawn
    callbacks filled by `SpawnParticles` and drained by `Draw`, which then
    ages every particle, integrates the survivors, copies their positions
    into their transforms and removes the expired ones after the pass.
    A spawn callback is an id; what its second call returns is an input. */
module Particles {
  import opened Wrappers
  import opened Vectors
  import opened Components
  import S = Store
  import R = Registry
  import P = Physics

  datatype ParticleSystem = ParticleSystem(pending: seq<int>)

  /** `SpawnParticles(n, cb)`: queues `cb` once per particle; a negative
      count queues nothing. */
  function SpawnParticles(ps: ParticleSystem, n: int, cb: int): (r: ParticleSystem)
    ensures |r.pending| == |ps.pending| + (if n < 0 then 0 else n)
    ensures r.pending[..|ps.pending|] == ps.pending
    ensures forall i | |ps.pending| <= i < |r.pending| :: r.pending[i] == cb
  {
    ParticleSystem(ps.pending + seq(if n < 0 then 0 else n, _ => cb))
  }

  // ---------------------------------------------------------------------
  // One particle
  // ---------------------------------------------------------------------

  /** A particle whose life, after `dt` is taken off, is not positive. */
  predicate Expires(p: Particle, dt: real) {
    p.life - dt <= 0.0
  }

  /** One frame of a particle: it loses `dt` of life; one that is still
      alive takes a symplectic Euler step under its force. */
  function Age(p: Particle, dt: real): (r: Particle)
    ensures r.life == p.life - dt && r.force == p.force
    ensures Expires(p, dt) ==> r.position == p.position && r.velocity == p.velocity
    ensures !Expires(p, dt) ==> r.velocity == Add(p.velocity, Scale(dt, p.force))
    ensures !Expires(p, dt) ==> r.position == Add(p.position, Scale(dt, r.velocity))
  {
    var aged := p.(life := p.life - dt);
    if aged.life <= 0.0 then aged
    else
      var v := Add(aged.velocity, Scale(dt, aged.force));
      aged.(velocity := v, position := Add(aged.position, Scale(dt, v)))
  }

  /** The default particle, with no force, drifts at constant velocity for
      the two seconds it lives. */
  lemma DefaultParticleDrifts(dt: real)
    requires 0.0 <= dt < 2.0
    ensures Age(DefaultParticle, dt).life == 2.0 - dt
    ensures Age(DefaultParticle, dt).velocity == DefaultParticle.velocity
    ensures Age(DefaultParticle, dt).position == DefaultParticle.position
  {
  }

  // ---------------------------------------------------------------------
  // Spawning
  // ---------------------------------------------------------------------

  /** `out` is `r` with the components `cs` added to entity `id`: each
      component of `cs` is found under its class, the entity's earlier
      components stay, and every other entity is untouched. */
  ghost predicate Placed(r: R.Registry, out: R.Registry, id: int, cs: seq<Component>) {
    && (forall i | 0 <= i < |cs| :: R.GetComponentFromEntity(out, RuntimeTag(cs[i]), id) == Ok(cs[i]))
    && (forall t | R.Stored(r, t, id) :: R.GetComponentFromEntity(out, t, id) == R.GetComponentFromEntity(r, t, id))
    && (forall t, k | k != id ::
          R.Stored(out, t, k) == R.Stored(r, t, k) &&
          R.GetComponentFromEntity(out, t, k) == R.GetComponentFromEntity(r, t, k))
  }

  /** `Scene.AddComponent(eid, c, c.GetType())` for each component in
      order; the first failure throws. */
  function AddAll(r: R.Registry, id: int, cs: seq<Component>): (res: Result<R.Registry>)
    requires R.Valid(r)
    ensures res.Ok? ==> R.Valid(res.value)
    ensures res.Ok? ==> res.value.entities == r.entities && res.value.counter == r.counter
    ensures res.Ok? ==> res.value.stores.Keys == r.stores.Keys
    ensures res.Ok? ==> Placed(r, res.value, id, cs)
    decreases |cs|
  {
    if |cs| == 0 then Ok(r)
    else
      var r1 :- R.AddComponent(r, id, cs[0], RuntimeTag(cs[0]));
      var rest :- AddAll(r1, id, cs[1..]);
      AddAllStep(r, r1, rest, id, cs);
      Ok(rest)
  }

  /** One turn of `AddAll`: adding the first component and then the rest
      places them all. */
  lemma AddAllStep(r: R.Registry, r1: R.Registry, out: R.Registry, id: int, cs: seq<Component>)
    requires R.Valid(r) && |cs| > 0
    requires R.AddComponent(r, id, cs[0], RuntimeTag(cs[0])) == Ok(r1)
    requires Placed(r1, out, id, cs[1..])
    ensures Placed(r, out, id, cs)
  {
    forall i | 0 <= i < |cs| ensures R.GetComponentFromEntity(out, RuntimeTag(cs[i]), id) == Ok(cs[i]) {
      if i > 0 {
        assert cs[i] == cs[1..][i - 1];
      } else {
        assert R.Stored(r1, RuntimeTag(cs[0]), id);
      }
    }
    forall t | R.Stored(r, t, id) ensures R.GetComponentFromEntity(out, t, id) == R.GetComponentFromEntity(r, t, id) {
      assert t != RuntimeTag(cs[0]);
      assert R.Stored(r1, t, id);
    }
  }

  /** No two components of `cs` share a class, and entity `id` holds none
      of their classes in `r`. */
  predicate FreshSlots(r: R.Registry, id: int, cs: seq<Component>) {
    && (forall i, j | 0 <= i < j < |cs| :: RuntimeTag(cs[i]) != RuntimeTag(cs[j]))
    && (forall i | 0 <= i < |cs| :: !R.Stored(r, RuntimeTag(cs[i]), id))
  }

  /** One turn of a successful `AddAll`: the first add succeeds and so
      does the rest. */
  lemma AddAllUnfold(r: R.Registry, id: int, cs: seq<Component>) returns (r1: R.Registry)
    requires R.Valid(r) && |cs| > 0 && AddAll(r, id, cs).Ok?
    ensures R.AddComponent(r, id, cs[0], RuntimeTag(cs[0])) == Ok(r1)
    ensures R.Valid(r1) && AddAll(r1, id, cs[1..]).Ok?
  {
    r1 := R.AddComponent(r, id, cs[0], RuntimeTag(cs[0])).value;
  }

  /** The first add claims its class's slot, so the rest must use fresh
      classes too. */
  lemma FreshSlotsStep(r: R.Registry, r1: R.Registry, id: int, cs: seq<Component>)
    requires R.Valid(r) && |cs| > 0
    requires R.AddComponent(r, id, cs[0], RuntimeTag(cs[0])) == Ok(r1)
    requires FreshSlots(r1, id, cs[1..])
    ensures FreshSlots(r, id, cs)
  {
    forall i | 1 <= i < |cs| ensures RuntimeTag(cs[i]) != RuntimeTag(cs[0]) && !R.Stored(r, RuntimeTag(cs[i]), id) {
      assert cs[i] == cs[1..][i - 1];
      assert !R.Stored(r1, RuntimeTag(cs[i]), id);
    }
    forall i, j | 0 <= i < j < |cs| ensures RuntimeTag(cs[i]) != RuntimeTag(cs[j]) {
      if i > 0 {
        assert cs[i] == cs[1..][i - 1] && cs[j] == cs[1..][j - 1];
      }
    }
  }

  /** Two components of one class in a spawn list throw, since the second
      finds its (type, entity) slot taken. */
  lemma {:induction false} AddAllOnePerType(r: R.Registry, id: int, cs: seq<Component>)
    requires R.Valid(r)
    requires AddAll(r, id, cs).Ok?
    ensures forall i, j | 0 <= i < j < |cs| :: RuntimeTag(cs[i]) != RuntimeTag(cs[j])
    ensures forall i | 0 <= i < |cs| :: !R.Stored(r, RuntimeTag(cs[i]), id)
    decreases |cs|
  {
    if |cs| > 0 {
      var r1 := AddAllUnfold(r, id, cs);
      AddAllOnePerType(r1, id, cs[1..]);
      FreshSlotsStep(r, r1, id, cs);
    }
  }

  /** The spawning loop of `Draw`: one new entity per queued callback,
      holding what that callback's second call returned. Returns the new
      ids. */
  function SpawnAll(r: R.Registry, results: seq<seq<Component>>): (res: Result<(R.Registry, seq<int>)>)
    requires R.Valid(r)
    ensures res.Ok? ==> R.Valid(res.value.0)
    ensures res.Ok? ==> res.value.0.counter == r.counter + |results|
    ensures res.Ok? ==> res.value.0.entities == r.entities + res.value.1
    ensures res.Ok? ==> |res.value.1| == |results| && forall i | 0 <= i < |results| :: res.value.1[i] == r.counter + 1 + i
    ensures res.Ok? ==> res.value.0.stores.Keys == r.stores.Keys
    ensures res.Ok? ==> forall t, k | k <= r.counter ::
              R.GetComponentFromEntity(res.value.0, t, k) == R.GetComponentFromEntity(r, t, k)
    decreases |results|
  {
    if |results| == 0 then Ok((r, []))
    else
      var (r1, eid) := R.AddEntity(r);
      var r2 :- AddAll(r1, eid, results[0]);
      var rest :- SpawnAll(r2, results[1..]);
      Ok((rest.0, [eid] + rest.1))
  }

  /** Entity `id` holds every component of `cs`, each under its class. */
  predicate Holds(r: R.Registry, id: int, cs: seq<Component>) {
    forall j | 0 <= j < |cs| :: R.GetComponentFromEntity(r, RuntimeTag(cs[j]), id) == Ok(cs[j])
  }

  /** `Holds` survives any change that leaves entity `id` alone. */
  lemma HoldsKept(r: R.Registry, r1: R.Registry, id: int, cs: seq<Component>)
    requires Holds(r, id, cs)
    requires forall t :: R.GetComponentFromEntity(r1, t, id) == R.GetComponentFromEntity(r, t, id)
    ensures Holds(r1, id, cs)
  {
  }

  /** One turn of a successful `SpawnAll`: the new entity `r.counter + 1`
      receives its components, giving `r2`, and the rest of the loop runs
      from `r2`. */
  lemma SpawnAllUnfold(r: R.Registry, results: seq<seq<Component>>) returns (r2: R.Registry)
    requires R.Valid(r) && |results| > 0
    requires SpawnAll(r, results).Ok?
    ensures R.Valid(r2) && r2.counter == r.counter + 1
    ensures Holds(r2, r.counter + 1, results[0])
    ensures SpawnAll(r2, results[1..]).Ok?
    ensures SpawnAll(r, results).value.0 == SpawnAll(r2, results[1..]).value.0
    ensures forall t, k | k != r.counter + 1 :: R.GetComponentFromEntity(r2, t, k) == R.GetComponentFromEntity(r, t, k)
  {
    var r1 := R.AddEntity(r).0;
    r2 := AddAll(r1, r.counter + 1, results[0]).value;
  }

  /** One turn of `SpawnAllHolds`: the rest of the loop leaves the entity
      just filled alone, so it keeps its components. */
  lemma HoldsStep(r: R.Registry, r2: R.Registry, out: R.Registry, results: seq<seq<Component>>)
    requires |results| > 0 && r2.counter == r.counter + 1
    requires Holds(r2, r2.counter, results[0])
    requires forall t :: R.GetComponentFromEntity(out, t, r2.counter) == R.GetComponentFromEntity(r2, t, r2.counter)
    requires forall i | 0 <= i < |results| - 1 :: Holds(out, r2.counter + 1 + i, results[1..][i])
    ensures forall i | 0 <= i < |results| :: Holds(out, r.counter + 1 + i, results[i])
  {
    forall i | 0 <= i < |results| ensures Holds(out, r.counter + 1 + i, results[i]) {
      if i > 0 {
        assert results[i] == results[1..][i - 1];
        assert r2.counter + 1 + (i - 1) == r.counter + 1 + i;
      } else {
        HoldsKept(r2, out, r2.counter, results[0]);
      }
    }
  }

  /** Each spawned entity holds every component its callback returned. */
  lemma {:induction false} SpawnAllHolds(r: R.Registry, results: seq<seq<Component>>)
    requires R.Valid(r)
    requires SpawnAll(r, results).Ok?
    ensures forall i | 0 <= i < |results| :: Holds(SpawnAll(r, results).value.0, r.counter + 1 + i, results[i])
    decreases |results|
  {
    if |results| > 0 {
      var r2 := SpawnAllUnfold(r, results);
      SpawnAllHolds(r2, results[1..]);
      var out := SpawnAll(r2, results[1..]).value.0;
      HoldsStep(r, r2, out, results);
    }
  }

  /** Queuing `n` callbacks makes the next `Draw` hand out that many more
      ids. */
  lemma SpawnThenDraw(sys: ParticleSystem, n: int, cb: int, r: R.Registry, dt: real, results: seq<seq<Component>>)
    requires R.Valid(r) && |results| == |SpawnParticles(sys, n, cb).pending|
    requires Draw(SpawnParticles(sys, n, cb), r, dt, results).Ok?
    ensures Draw(SpawnParticles(sys, n, cb), r, dt, results).value.1.counter ==
            r.counter + |sys.pending| + (if n < 0 then 0 else n)
    ensures Draw(SpawnParticles(sys, n, cb), r, dt, results).value.0.pending == []
  {
  }

  // ---------------------------------------------------------------------
  // Ageing
  // ---------------------------------------------------------------------

  /** The entry `c` is a particle that survives this frame. */
  predicate Survives(dies: Particle -> bool, c: Component) {
    c.CParticle? && !dies(c.particle)
  }

  /** The ageing loop of `Draw` from position `i` of the particle table:
      each entry is cast to `CParticle` and aged in place; a survivor's
      transform takes its new position (a missing transform throws); the
      expired ids are collected for removal. */
  function AgeFrom(age: Particle -> Particle, dies: Particle -> bool, ps: S.Store, ts: S.Store, i: nat): (res: Result<(S.Store, S.Store, seq<int>)>)
    requires S.Valid(ps) && S.Valid(ts) && i <= |ps.order|
    ensures res.Ok? ==> S.Valid(res.value.0) && res.value.0.order == ps.order
    ensures res.Ok? ==> res.value.0.entries.Keys == ps.entries.Keys
    ensures res.Ok? ==> S.Valid(res.value.1) && res.value.1.order == ts.order
    ensures res.Ok? ==> res.value.1.entries.Keys == ts.entries.Keys
    decreases |ps.order| - i
  {
    if i == |ps.order| then Ok((ps, ts, []))
    else
      var id := ps.order[i];
      var p :- AsParticle(ps.entries[id]);
      var q := age(p);
      var ps1 := S.Set(ps, id, CParticle(q));
      if dies(p) then
        var rest :- AgeFrom(age, dies, ps1, ts, i + 1);
        Ok((rest.0, rest.1, [id] + rest.2))
      else
        var tr :- P.TransformOf(ts, id);
        var ts1 := S.Set(ts, id, CTransform(tr.(position := q.position)));
        var rest :- AgeFrom(age, dies, ps1, ts1, i + 1);
        Ok(rest)
  }

  /** The tables after the particle at position `i` is aged. */
  function AgeOne(age: Particle -> Particle, dies: Particle -> bool, ps: S.Store, ts: S.Store, i: nat): (r: (S.Store, S.Store))
    requires S.Valid(ps) && S.Valid(ts) && i < |ps.order| && ps.entries[ps.order[i]].CParticle?
    requires Survives(dies, ps.entries[ps.order[i]]) ==> P.TransformOf(ts, ps.order[i]).Ok?
    ensures S.Valid(r.0) && r.0.order == ps.order && r.0.entries.Keys == ps.entries.Keys
    ensures S.Valid(r.1) && r.1.order == ts.order && r.1.entries.Keys == ts.entries.Keys
    ensures forall k | k != ps.order[i] && k in ps.entries :: r.0.entries[k] == ps.entries[k]
    ensures r.0.entries[ps.order[i]] == CParticle(age(ps.entries[ps.order[i]].particle))
    ensures !Survives(dies, ps.entries[ps.order[i]]) ==> r.1 == ts
    ensures Survives(dies, ps.entries[ps.order[i]]) ==>
              r.1.entries[ps.order[i]] ==
              CTransform(P.TransformOf(ts, ps.order[i]).value.(position := age(ps.entries[ps.order[i]].particle).position))
    ensures forall k | k != ps.order[i] && k in ts.entries :: r.1.entries[k] == ts.entries[k]
  {
    var id := ps.order[i];
    var q := age(ps.entries[id].particle);
    var ps1 := S.Set(ps, id, CParticle(q));
    if dies(ps.entries[id].particle) then (ps1, ts)
    else (ps1, S.Set(ts, id, CTransform(P.TransformOf(ts, id).value.(position := q.position))))
  }

  /** One turn of `AgeFrom`, in terms of `AgeOne`. */
  lemma AgeFromUnfold(age: Particle -> Particle, dies: Particle -> bool, ps: S.Store, ts: S.Store, i: nat)
    requires S.Valid(ps) && S.Valid(ts) && i < |ps.order|
    ensures AgeFrom(age, dies, ps, ts, i).Ok? ==> ps.entries[ps.order[i]].CParticle?
    ensures AgeFrom(age, dies, ps, ts, i).Ok? ==>
              Survives(dies, ps.entries[ps.order[i]]) ==> P.TransformOf(ts, ps.order[i]).Ok?
    ensures ps.entries[ps.order[i]].CParticle? &&
            (Survives(dies, ps.entries[ps.order[i]]) ==> P.TransformOf(ts, ps.order[i]).Ok?) ==>
              var nxt := AgeOne(age, dies, ps, ts, i);
              var rest := AgeFrom(age, dies, nxt.0, nxt.1, i + 1);
              && (AgeFrom(age, dies, ps, ts, i).Ok? <==> rest.Ok?)
              && (rest.Ok? ==>
                    AgeFrom(age, dies, ps, ts, i).value.0 == rest.value.0 &&
                    AgeFrom(age, dies, ps, ts, i).value.1 == rest.value.1 &&
                    AgeFrom(age, dies, ps, ts, i).value.2 ==
                    (if Survives(dies, ps.entries[ps.order[i]]) then [] else [ps.order[i]]) + rest.value.2)
  {
  }

  /** Ageing the particle at position `i` leaves the entries at every other
      position, and their transforms, as they were. */
  lemma AgeOneKeeps(age: Particle -> Particle, dies: Particle -> bool, ps: S.Store, ts: S.Store, i: nat)
    requires S.Valid(ps) && S.Valid(ts) && i < |ps.order| && ps.entries[ps.order[i]].CParticle?
    requires Survives(dies, ps.entries[ps.order[i]]) ==> P.TransformOf(ts, ps.order[i]).Ok?
    ensures forall j | 0 <= j < |ps.order| && j != i ::
              && AgeOne(age, dies, ps, ts, i).0.entries[ps.order[j]] == ps.entries[ps.order[j]]
              && P.TransformOf(AgeOne(age, dies, ps, ts, i).1, ps.order[j]) == P.TransformOf(ts, ps.order[j])
  {
    forall j | 0 <= j < |ps.order| && j != i
      ensures AgeOne(age, dies, ps, ts, i).0.entries[ps.order[j]] == ps.entries[ps.order[j]]
      ensures P.TransformOf(AgeOne(age, dies, ps, ts, i).1, ps.order[j]) == P.TransformOf(ts, ps.order[j])
    {
      assert ps.order[j] != ps.order[i];
    }
  }

  /** Ageing position `i` does not change whether the later positions can
      be aged. */
  lemma AgeFromOkStep(age: Particle -> Particle, dies: Particle -> bool, ps: S.Store, ts: S.Store, i: nat)
    requires S.Valid(ps) && S.Valid(ts) && i < |ps.order| && ps.entries[ps.order[i]].CParticle?
    requires Survives(dies, ps.entries[ps.order[i]]) ==> P.TransformOf(ts, ps.order[i]).Ok?
    ensures var nxt := AgeOne(age, dies, ps, ts, i);
      (forall j | i + 1 <= j < |ps.order| ::
         nxt.0.entries[ps.order[j]].CParticle? &&
         (Survives(dies, nxt.0.entries[ps.order[j]]) ==> P.TransformOf(nxt.1, ps.order[j]).Ok?))
      <==>
      (forall j | i <= j < |ps.order| ::
         ps.entries[ps.order[j]].CParticle? &&
         (Survives(dies, ps.entries[ps.order[j]]) ==> P.TransformOf(ts, ps.order[j]).Ok?))
  {
    AgeOneKeeps(age, dies, ps, ts, i);
  }

  /** The ageing loop succeeds iff every entry from `i` on is a `CParticle`
      and every surviving one has a `CTransform`. */
  lemma {:induction false} AgeFromOk(age: Particle -> Particle, dies: Particle -> bool, ps: S.Store, ts: S.Store, i: nat)
    requires S.Valid(ps) && S.Valid(ts) && i <= |ps.order|
    ensures AgeFrom(age, dies, ps, ts, i).Ok? <==>
            forall j | i <= j < |ps.order| ::
              ps.entries[ps.order[j]].CParticle? &&
              (Survives(dies, ps.entries[ps.order[j]]) ==> P.TransformOf(ts, ps.order[j]).Ok?)
    decreases |ps.order| - i
  {
    if i < |ps.order| {
      AgeFromUnfold(age, dies, ps, ts, i);
      var id := ps.order[i];
      if ps.entries[id].CParticle? && (Survives(dies, ps.entries[id]) ==> P.TransformOf(ts, id).Ok?) {
        var nxt := AgeOne(age, dies, ps, ts, i);
        AgeFromOk(age, dies, nxt.0, nxt.1, i + 1);
        AgeFromOkStep(age, dies, ps, ts, i);
      }
    }
  }

  /** One turn of `AgeFromParticles`: if the rest of the loop, run on the
      tables after position `i` is aged, leaves `out` holding the aged
      particles from `i + 1` on, then `out` holds them from `i` on. */
  lemma AgeFromParticlesStep(age: Particle -> Particle, dies: Particle -> bool, ps: S.Store, ts: S.Store, i: nat, out: S.Store)
    requires S.Valid(ps) && S.Valid(ts) && i < |ps.order| && ps.entries[ps.order[i]].CParticle?
    requires Survives(dies, ps.entries[ps.order[i]]) ==> P.TransformOf(ts, ps.order[i]).Ok?
    requires out.entries.Keys == ps.entries.Keys
    requires var nxt := AgeOne(age, dies, ps, ts, i).0;
      && (forall j | i + 1 <= j < |ps.order| ::
            nxt.entries[ps.order[j]].CParticle? &&
            out.entries[ps.order[j]] == CParticle(age(nxt.entries[ps.order[j]].particle)))
      && (forall j | 0 <= j < i + 1 :: out.entries[ps.order[j]] == nxt.entries[ps.order[j]])
    ensures forall j | i <= j < |ps.order| ::
              ps.entries[ps.order[j]].CParticle? &&
              out.entries[ps.order[j]] == CParticle(age(ps.entries[ps.order[j]].particle))
    ensures forall j | 0 <= j < i :: out.entries[ps.order[j]] == ps.entries[ps.order[j]]
  {
    AgeOneKeeps(age, dies, ps, ts, i);
  }

  /** After a successful ageing loop every particle from `i` on holds its
      aged value, and the entries before `i` are untouched. */
  lemma {:induction false} AgeFromParticles(age: Particle -> Particle, dies: Particle -> bool, ps: S.Store, ts: S.Store, i: nat)
    requires S.Valid(ps) && S.Valid(ts) && i <= |ps.order|
    requires AgeFrom(age, dies, ps, ts, i).Ok?
    ensures forall j | i <= j < |ps.order| ::
              ps.entries[ps.order[j]].CParticle? &&
              AgeFrom(age, dies, ps, ts, i).value.0.entries[ps.order[j]] == CParticle(age(ps.entries[ps.order[j]].particle))
    ensures forall j | 0 <= j < i :: AgeFrom(age, dies, ps, ts, i).value.0.entries[ps.order[j]] == ps.entries[ps.order[j]]
    decreases |ps.order| - i
  {
    if i < |ps.order| {
      AgeFromUnfold(age, dies, ps, ts, i);
      var nxt := AgeOne(age, dies, ps, ts, i);
      AgeFromParticles(age, dies, nxt.0, nxt.1, i + 1);
      AgeFromParticlesStep(age, dies, ps, ts, i, AgeFrom(age, dies, nxt.0, nxt.1, i + 1).value.0);
    }
  }

  /** After a successful ageing loop each surviving particle's transform
      holds its new position; every other transform is untouched. */
  lemma {:induction false} AgeFromTransforms(age: Particle -> Particle, dies: Particle -> bool, ps: S.Store, ts: S.Store, i: nat)
    requires S.Valid(ps) && S.Valid(ts) && i <= |ps.order|
    requires AgeFrom(age, dies, ps, ts, i).Ok?
    ensures var out := AgeFrom(age, dies, ps, ts, i).value.1;
      && (forall j | i <= j < |ps.order| && Survives(dies, ps.entries[ps.order[j]]) ::
            P.TransformOf(ts, ps.order[j]).Ok? &&
            out.entries[ps.order[j]] ==
            CTransform(P.TransformOf(ts, ps.order[j]).value.(position := age(ps.entries[ps.order[j]].particle).position)))
      && (forall k | k in ts.entries && (k !in ps.order[i..] || !Survives(dies, ps.entries[k])) ::
            out.entries[k] == ts.entries[k])
    decreases |ps.order| - i
  {
    if i < |ps.order| {
      AgeFromUnfold(age, dies, ps, ts, i);
      var id := ps.order[i];
      var nxt := AgeOne(age, dies, ps, ts, i);
      AgeFromTransforms(age, dies, nxt.0, nxt.1, i + 1);
      var out := AgeFrom(age, dies, ps, ts, i).value.1;
      assert out == AgeFrom(age, dies, nxt.0, nxt.1, i + 1).value.1;
      forall j | i <= j < |ps.order| && Survives(dies, ps.entries[ps.order[j]])
        ensures P.TransformOf(ts, ps.order[j]).Ok?
        ensures out.entries[ps.order[j]] ==
                CTransform(P.TransformOf(ts, ps.order[j]).value.(position := age(ps.entries[ps.order[j]].particle).position))
      {
        if j > i {
          assert ps.order[j] != id;
          assert nxt.0.entries[ps.order[j]] == ps.entries[ps.order[j]];
          assert P.TransformOf(nxt.1, ps.order[j]) == P.TransformOf(ts, ps.order[j]);
        } else {
          assert id !in ps.order[i + 1..];
          assert out.entries[id] == nxt.1.entries[id];
        }
      }
      forall k | k in ts.entries && (k !in ps.order[i..] || !Survives(dies, ps.entries[k]))
        ensures out.entries[k] == ts.entries[k]
      {
        if k == id {
          assert id !in ps.order[i + 1..];
          assert nxt.1.entries[k] == ts.entries[k];
        } else {
          if k in ps.order[i + 1..] {
            assert k in ps.order[i..];
            assert nxt.0.entries[k] == ps.entries[k];
          }
          assert nxt.1.entries[k] == ts.entries[k];
        }
      }
    }
  }

  /** One turn of `AgeFromExpired`: putting the id at position `i` in front
      of the later expired ids when its particle dies gives exactly the
      expired ids from `i` on, each once. */
  lemma AgeFromExpiredStep(age: Particle -> Particle, dies: Particle -> bool, ps: S.Store, ts: S.Store, i: nat, rest: seq<int>)
    requires S.Valid(ps) && S.Valid(ts) && i < |ps.order| && ps.entries[ps.order[i]].CParticle?
    requires Survives(dies, ps.entries[ps.order[i]]) ==> P.TransformOf(ts, ps.order[i]).Ok?
    requires var nxt := AgeOne(age, dies, ps, ts, i).0;
      && (forall k :: k in rest <==> k in ps.order[i + 1..] && !Survives(dies, nxt.entries[k]))
      && S.Distinct(rest)
    ensures var dead := (if Survives(dies, ps.entries[ps.order[i]]) then [] else [ps.order[i]]) + rest;
      && (forall k :: k in dead <==> k in ps.order[i..] && !Survives(dies, ps.entries[k]))
      && S.Distinct(dead)
  {
    var id := ps.order[i];
    var nxt := AgeOne(age, dies, ps, ts, i);
    assert id !in ps.order[i + 1..];
    assert ps.order[i..] == [id] + ps.order[i + 1..];
    forall k | k in ps.order[i + 1..] ensures nxt.0.entries[k] == ps.entries[k] {
    }
  }

  /** The ids the ageing loop queues for removal are exactly the expired
      particles from `i` on, each once. */
  lemma {:induction false} AgeFromExpired(age: Particle -> Particle, dies: Particle -> bool, ps: S.Store, ts: S.Store, i: nat)
    requires S.Valid(ps) && S.Valid(ts) && i <= |ps.order|
    requires AgeFrom(age, dies, ps, ts, i).Ok?
    ensures var dead := AgeFrom(age, dies, ps, ts, i).value.2;
      && (forall k :: k in dead <==> k in ps.order[i..] && !Survives(dies, ps.entries[k]))
      && S.Distinct(dead)
    decreases |ps.order| - i
  {
    if i < |ps.order| {
      AgeFromUnfold(age, dies, ps, ts, i);
      var nxt := AgeOne(age, dies, ps, ts, i);
      AgeFromExpired(age, dies, nxt.0, nxt.1, i + 1);
      AgeFromExpiredStep(age, dies, ps, ts, i, AgeFrom(age, dies, nxt.0, nxt.1, i + 1).value.2);
    }
  }

  // ---------------------------------------------------------------------
  // Removal and the whole frame
  // ---------------------------------------------------------------------

  /** The deferred `Scene.RemoveEntity(eid)` calls, in order. */
  function RemoveAll(r: R.Registry, ids: seq<int>): (res: R.Registry)
    requires R.Valid(r)
    ensures R.Valid(res) && res.counter == r.counter && res.stores.Keys == r.stores.Keys
    ensures forall k | k in ids :: k !in res.entities && forall t :: !R.Stored(res, t, k)
    ensures forall k | k !in ids :: (k in res.entities <==> k in r.entities)
    ensures forall t, k | k !in ids ::
              R.Stored(res, t, k) == R.Stored(r, t, k) &&
              R.GetComponentFromEntity(res, t, k) == R.GetComponentFromEntity(r, t, k)
    decreases |ids|
  {
    if |ids| == 0 then r
    else
      var rest := RemoveAll(R.RemoveEntity(r, ids[0]), ids[1..]);
      assert forall k | k in ids && k != ids[0] :: k in ids[1..];
      rest
  }

  /** The per-particle rules of `Draw` for a frame of length `dt`. */
  function AgeBy(dt: real): (f: Particle -> Particle)
    ensures forall p :: f(p) == Age(p, dt)
  {
    p => Age(p, dt)
  }

  function DiesBy(dt: real): (f: Particle -> bool)
    ensures forall p :: f(p) == Expires(p, dt)
  {
    p => Expires(p, dt)
  }

  /** `Draw(t, dt)`: spawns one entity per queued callback (`results[i]`
      is what the `i`-th callback's second call returned), empties the
      queue, ages every particle, writes back the particle and transform
      tables and removes the expired particles' entities. */
  function Draw(sys: ParticleSystem, r: R.Registry, dt: real, results: seq<seq<Component>>): (res: Result<(ParticleSystem, R.Registry)>)
    requires R.Valid(r) && |results| == |sys.pending|
    ensures res.Ok? ==> res.value.0.pending == [] && R.Valid(res.value.1)
    ensures res.Ok? ==> res.value.1.counter == r.counter + |sys.pending|
    ensures res.Ok? ==> res.value.1.stores.Keys == r.stores.Keys
  {
    var spawned :- SpawnAll(r, results);
    var r1 := spawned.0;
    var ps := R.GetComponents(r1, TParticle);
    var ts := R.GetComponents(r1, TTransform);
    var aged :- AgeFrom(AgeBy(dt), DiesBy(dt), ps, ts, 0);
    Ok((ParticleSystem([]), RemoveAll(WriteTables(r1, aged.0, aged.1), aged.2)))
  }

  /** The particle and transform tables put back, where registered. */
  function WriteTables(r: R.Registry, ps: S.Store, ts: S.Store): (res: R.Registry)
    requires R.Valid(r) && S.Valid(ps) && S.Valid(ts)
    ensures R.Valid(res) && res.entities == r.entities && res.counter == r.counter
    ensures res.stores.Keys == r.stores.Keys
    ensures TParticle in r.stores ==> res.stores[TParticle] == ps
    ensures TTransform in r.stores ==> res.stores[TTransform] == ts
    ensures forall t | t in r.stores && t != TParticle && t != TTransform :: res.stores[t] == r.stores[t]
  {
    var s1 := if TParticle in r.stores then r.stores[TParticle := ps] else r.stores;
    var s2 := if TTransform in r.stores then s1[TTransform := ts] else s1;
    r.(stores := s2)
  }

  /** The registry `Draw` ages: the one after spawning. */
  function Spawned(sys: ParticleSystem, r: R.Registry, results: seq<seq<Component>>): (r1: R.Registry)
    requires R.Valid(r) && |results| == |sys.pending| && SpawnAll(r, results).Ok?
    ensures R.Valid(r1)
  {
    SpawnAll(r, results).value.0
  }

  /** The ageing pass and the removals on one particle `k` of `r1`: an
      expired one is gone with all its components; a survivor holds its
      integrated state and its transform its new position. */
  lemma AgedAt(r1: R.Registry, dt: real, k: int)
    requires R.Valid(r1) && R.Stored(r1, TParticle, k)
    requires AgeFrom(AgeBy(dt), DiesBy(dt), R.GetComponents(r1, TParticle), R.GetComponents(r1, TTransform), 0).Ok?
    ensures r1.stores[TParticle].entries[k].CParticle?
    ensures var aged := AgeFrom(AgeBy(dt), DiesBy(dt), R.GetComponents(r1, TParticle), R.GetComponents(r1, TTransform), 0).value;
      var out := RemoveAll(WriteTables(r1, aged.0, aged.1), aged.2);
      var p := r1.stores[TParticle].entries[k].particle;
      && (Expires(p, dt) ==> k !in out.entities && forall t :: !R.Stored(out, t, k))
      && (!Expires(p, dt) ==>
            && R.GetComponentFromEntity(out, TParticle, k) == Ok(CParticle(Age(p, dt)))
            && R.GetComponentFromEntity(r1, TTransform, k).Ok?
            && r1.stores[TTransform].entries[k].CTransform?
            && R.GetComponentFromEntity(out, TTransform, k) ==
               Ok(CTransform(r1.stores[TTransform].entries[k].transform.(position := Age(p, dt).position))))
  {
    var ps := R.GetComponents(r1, TParticle);
    var ts := R.GetComponents(r1, TTransform);
    var age, dies := AgeBy(dt), DiesBy(dt);
    AgeFromParticles(age, dies, ps, ts, 0);
    AgeFromTransforms(age, dies, ps, ts, 0);
    AgeFromExpired(age, dies, ps, ts, 0);
    assert ps.order[0..] == ps.order;
    assert k in ps.order;
    assert exists j :: 0 <= j < |ps.order| && ps.order[j] == k;
  }

  /** After `Draw` every particle present after spawning, new ones
      included, has been aged: one whose life ran out is gone with all its
      components, a survivor holds its integrated state and its transform
      its new position. */
  lemma DrawAges(sys: ParticleSystem, r: R.Registry, dt: real, results: seq<seq<Component>>)
    requires R.Valid(r) && |results| == |sys.pending|
    requires Draw(sys, r, dt, results).Ok?
    ensures SpawnAll(r, results).Ok?
    ensures var r1 := Spawned(sys, r, results);
      var out := Draw(sys, r, dt, results).value.1;
      forall k | R.Stored(r1, TParticle, k) ::
        && r1.stores[TParticle].entries[k].CParticle?
        && var p := r1.stores[TParticle].entries[k].particle;
           && (Expires(p, dt) ==> k !in out.entities && forall t :: !R.Stored(out, t, k))
           && (!Expires(p, dt) ==>
                 && R.GetComponentFromEntity(out, TParticle, k) == Ok(CParticle(Age(p, dt)))
                 && R.GetComponentFromEntity(r1, TTransform, k).Ok?
                 && r1.stores[TTransform].entries[k].CTransform?
                 && R.GetComponentFromEntity(out, TTransform, k) ==
                    Ok(CTransform(r1.stores[TTransform].entries[k].transform.(position := Age(p, dt).position))))
  {
    var r1 := Spawned(sys, r, results);
    var aged := AgeFrom(AgeBy(dt), DiesBy(dt), R.GetComponents(r1, TParticle), R.GetComponents(r1, TTransform), 0).value;
    assert Draw(sys, r, dt, results).value.1 == RemoveAll(WriteTables(r1, aged.0, aged.1), aged.2);
    forall k | R.Stored(r1, TParticle, k) {
      AgedAt(r1, dt, k);
    }
  }

  /** The spawning loop touches no entity other than the ones it creates:
      every id outside `r.counter + 1 .. r.counter + |results|` keeps every
      component it had. */
  lemma {:induction false} SpawnAllKeeps(r: R.Registry, results: seq<seq<Component>>)
    requires R.Valid(r)
    requires SpawnAll(r, results).Ok?
    ensures forall t, k | !(r.counter < k <= r.counter + |results|) ::
              R.GetComponentFromEntity(SpawnAll(r, results).value.0, t, k) == R.GetComponentFromEntity(r, t, k)
    decreases |results|
  {
    if |results| > 0 {
      var r2 := SpawnAllUnfold(r, results);
      SpawnAllKeeps(r2, results[1..]);
    }
  }

  /** An entity with no particle goes through the ageing pass untouched:
      it is not queued for removal and, once the tables are written back,
      keeps every component. */
  lemma AgedKeeps(r1: R.Registry, dt: real, k: int)
    requires R.Valid(r1) && !R.Stored(r1, TParticle, k)
    requires AgeFrom(AgeBy(dt), DiesBy(dt), R.GetComponents(r1, TParticle), R.GetComponents(r1, TTransform), 0).Ok?
    ensures var aged := AgeFrom(AgeBy(dt), DiesBy(dt), R.GetComponents(r1, TParticle), R.GetComponents(r1, TTransform), 0).value;
      && k !in aged.2
      && forall t :: R.GetComponentFromEntity(WriteTables(r1, aged.0, aged.1), t, k) == R.GetComponentFromEntity(r1, t, k)
  {
    var ps := R.GetComponents(r1, TParticle);
    var ts := R.GetComponents(r1, TTransform);
    var age, dies := AgeBy(dt), DiesBy(dt);
    var aged := AgeFrom(age, dies, ps, ts, 0).value;
    AgeFromTransforms(age, dies, ps, ts, 0);
    AgeFromExpired(age, dies, ps, ts, 0);
    assert ps.order[0..] == ps.order;
    assert k !in ps.order;
    var w := WriteTables(r1, aged.0, aged.1);
    forall t ensures R.GetComponentFromEntity(w, t, k) == R.GetComponentFromEntity(r1, t, k) {
      if t == TTransform && t in r1.stores && k in ts.entries {
        assert aged.1.entries[k] == ts.entries[k];
      }
    }
  }

  /** `Draw` leaves every other entity alone: an id it did not spawn and
      that holds no particle after spawning stays live exactly when it was,
      and keeps every component it had. */
  lemma DrawKeepsOthers(sys: ParticleSystem, r: R.Registry, dt: real, results: seq<seq<Component>>)
    requires R.Valid(r) && |results| == |sys.pending|
    requires Draw(sys, r, dt, results).Ok?
    ensures SpawnAll(r, results).Ok?
    ensures var r1 := Spawned(sys, r, results);
      var out := Draw(sys, r, dt, results).value.1;
      forall k | !(r.counter < k <= r.counter + |sys.pending|) && !R.Stored(r1, TParticle, k) ::
        && (k in out.entities <==> k in r.entities)
        && forall t :: R.GetComponentFromEntity(out, t, k) == R.GetComponentFromEntity(r, t, k)
  {
    var sp := SpawnAll(r, results).value;
    var r1 := sp.0;
    SpawnAllKeeps(r, results);
    var aged := AgeFrom(AgeBy(dt), DiesBy(dt), R.GetComponents(r1, TParticle), R.GetComponents(r1, TTransform), 0).value;
    var w := WriteTables(r1, aged.0, aged.1);
    var out := RemoveAll(w, aged.2);
    assert out == Draw(sys, r, dt, results).value.1;
    forall k | !(r.counter < k <= r.counter + |sys.pending|) && !R.Stored(r1, TParticle, k)
      ensures k in out.entities <==> k in r.entities
      ensures forall t :: R.GetComponentFromEntity(out, t, k) == R.GetComponentFromEntity(r, t, k)
    {
      AgedKeeps(r1, dt, k);
      assert k !in sp.1;
    }
  }
}
