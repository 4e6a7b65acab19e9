# EngineName core in Dafny

A functional model of the rule-based core of the EngineName MonoGame
entity-component-system engine, with proofs of what each rule guarantees.
Every operation is a pure function or a method over immutable values; C#
exceptions become `Err` values (`MissingKey`, `DuplicateKey`,
`IndexOutOfRange`, `InvalidCast`, `NegativeSize`, `AssertionFailed`), and
callbacks (event handlers, logic functions, menu actions, debug strings,
particle factories) are opaque values whose invocations are returned as
ordered traces.

Modules, one per source concept:

- `Wrappers`, `Vectors`, `Components`: `Result`/`Option`, `Vector3`
  arithmetic over `real`, and the component records (`CBody`, `CTransform`,
  `CLogic`, `CParticle`, `CInput`, `CCamera`, `CText`, `CFPS`, `CHeightmap`,
  `CImportedModel`).
- `Store`, `Registry`: one scene's type-to-entity-to-component tables
  (insertion-ordered, like `Dictionary` iteration), the entity list and the
  id counter of `Scene`.
- `Scene`, `Systems`: events grouped under lower-cased names, the ordered
  system list with its `Init`/`Update`/`Draw`/`Cleanup` dispatch, and
  `AsyncMultiSystem` forwarding.
- `EcsEntity`: the per-entity type map with its shared id counter and
  scene notifications.
- `Game`: the `Game1` scene stack, with global and in-scene events.
- `Physics`: semi-implicit Euler integration, the per-axis wall clamp, the
  broad-phase pair list built inside the integration loop, and impulse
  resolution.
- `Particles`, `Logic`, `Fps`, `Menu`, `Input`: the spawn queue, ageing and
  deferred removal of particles; the fixed-period logic timers; the frame
  counter; menu selection with key debounce and label layout; keyboard
  velocity nudges and the camera's slide, turn and orbit.
- `Mesh`, `Map`, `MapLoad`, `Ground`, `Water`, `Bounds`, `DebugOverlay`:
  the terrain chunk triangulation and offsets, the height grid and its
  extremes, the ground skirt, the water grid, the min/max bounding box, and
  the debug overlay's cube-edge vertex table and text layout.

Some behaviours are modelled as the code has them, even where a reader
might expect otherwise:

- The broad phase tests the first body's box as it was before its wall
  clamp, against the second body's position at that point of the loop.
- `Scene.AddComponent` does not check that the entity is alive.
- The collision event carries no data.
- `Scene.Cleanup` calls `Init`, not `Cleanup`, on each system.
- The particle factory is called twice per spawn, and the second result is
  used.
- The menu highlight is placed at the selection from before the frame's
  moves.
- `(int)` casts truncate toward zero.

Two defects of the map loader (the height extremes and the ground's right face, see "## Findings") are modelled both ways: `MapLoad.LoadHeightmapAsWritten` is the loader as the code has it, and `MapLoad.LoadHeightmap`, which `MapLoad.Load` uses, is the corrected one.

## Model

| member | source | states |
|---|---|---|
| Store.Add | Source/EngineName/Scene.cs:129-131 | `Dictionary.Add` on one type table: fails with a duplicate-key error exactly when the id is present; otherwise the id maps to the component, every other key and value is kept and the id is appended to the iteration order |
| Store.Set | Source/EngineName/Systems/PhysicsSystem.cs:107-113 | mutating a stored component object in place keeps the key set and iteration order, changes only that id's value |
| Store.Remove | Source/EngineName/Scene.cs:121-124 | `Dictionary.Remove` on one table: afterwards the id is absent, every other entry is kept, and removing an absent id changes nothing |
| Store.WithoutDistinct | Source/EngineName/Scene.cs:121-124 | dropping a key from the iteration order keeps every remaining key unique |
| Registry.FreshValid | Source/EngineName/Scene.cs:65-72 | a new scene (no type maps, no entities, counter -1) satisfies the registry invariant |
| Registry.AddEntity | Source/EngineName/Scene.cs:113-119 | the returned id is the pre-incremented counter, was not live before, is appended to the entity list (count grows by one) and no table changes |
| Registry.RemoveFirst | Source/EngineName/Scene.cs:126 | `List<int>.Remove`: an absent id leaves the list as it is; otherwise exactly one element fewer, and all other ids stay |
| Registry.RemoveFirstDistinct | Source/EngineName/Scene.cs:126 | on a duplicate-free entity list, removing an id removes it completely and keeps the list duplicate-free |
| Registry.RemoveEntity | Source/EngineName/Scene.cs:121-127 | the id is gone from the entity list and from every registered table; every other entity and component is kept; the counter is untouched; the count drops by one exactly when the id was live |
| Registry.AddComponent | Source/EngineName/Scene.cs:129-135 | succeeds iff the type is registered and has no entry for the id (missing type map throws `KeyNotFoundException`, a second component throws `ArgumentException`); then lookup of (type, id) yields the component and every other lookup and the entity list are unchanged |
| Registry.GetComponents | Source/EngineName/Scene.cs:136-143 | the table of the type, or an empty table when the type was never registered; its keys are exactly the ids stored under the type |
| Registry.GetComponentFromEntity | Source/EngineName/Scene.cs:145-147 | succeeds iff the type is registered and holds the id, and then yields that entry; otherwise a missing-key error |
| Registry.EntityHasComponent | Source/EngineName/Scene.cs:149-151 | throws (missing key) exactly when the type has no table; otherwise true iff the id is stored under the type |
| Registry.SetComponent | Source/EngineName/Systems/PhysicsSystem.cs:107-113 | replacing a stored component changes only that (type, id) lookup; entities, counter, type set and iteration order stay |
| Registry.Run | Source/EngineName/Scene.cs:113-131 | any sequence of add/remove/add-component calls keeps the registry invariant and every id handed out lies above the starting counter |
| Registry.IdsNeverReused | Source/EngineName/Scene.cs:113-127 | ids handed out across any sequence of adds and removals strictly increase and none of them was live at the start |
| Registry.FirstIds | Source/EngineName/Scene.cs:72 | with the counter starting at -1 the first two entities get ids 0 and 1 |
| Registry.ComponentForUnknownEntity | Source/EngineName/Scene.cs:129-131 | `AddComponent` does not check that the id is a live entity: a component can be stored for an id the scene never handed out |
| Scene.LowerChar | Source/EngineName/Scene.cs:83 | `ToLower` on one character: ASCII capitals map to their lower case, everything else is unchanged |
| Scene.ToLower | Source/EngineName/Scene.cs:83 | the lower-cased name has the same length, is lowered character by character and contains no capital letter |
| Scene.Raise | Source/EngineName/Scene.cs:81-94 | with no callback list under the lower-cased name nothing runs; otherwise every registered callback runs once with the data, in registration order |
| Scene.OnEvent | Source/EngineName/Scene.cs:99-109 | the lower-cased name gets a list (created if missing) with the callback appended; every other name's list, the registry and the systems are unchanged |
| Scene.RaiseIgnoresCase | Source/EngineName/Scene.cs:82-83 | two names that lower-case alike reach exactly the same callbacks |
| Scene.OnEventThenRaise | Source/EngineName/Scene.cs:81-109 | after registering a callback, raising that name runs the earlier callbacks and then the new one; raising any name that differs after lower-casing is unaffected |
| Scene.AddSystem | Source/EngineName/Scene.cs:154-157 | the system, with its `Scene` set to this scene, is appended; registry and events are unchanged |
| Scene.AddSystems | Source/EngineName/Scene.cs:161-165 | each argument system is appended in argument order with its scene bound; earlier systems keep their places |
| Scene.AddSystemRunsLast | Source/EngineName/Scene.cs:245-251 | the system added last has its `Update` and `Draw` hooks run after those of all earlier systems |
| Scene.UpdateCallsEachSystemOnce | Source/EngineName/Scene.cs:245-251 | with plain systems, `Update` calls each system's `Update` once, in the order they were added |
| Scene.RegisterTypes | Source/EngineName/Scene.cs:198-205 | `Components.Add` for each type: fails with a duplicate-key error iff one of them is already registered; otherwise exactly the new types gain an empty table and the old tables are kept |
| Scene.SceneTagSet | Source/EngineName/Scene.cs:198-205 | the set of component types `Init` registers is exactly the eight listed |
| Scene.Init | Source/EngineName/Scene.cs:196-216 | succeeds iff none of the eight types is registered yet, and then registers each with an empty table, keeps the entities, appends the FPS system in a debug build and runs `Init` of every system in order |
| Scene.InitKeepsValid | Source/EngineName/Scene.cs:196-216 | a successful `Init` keeps the registry invariant |
| Scene.InitFreshRegistersEight | Source/EngineName/Scene.cs:196-205 | `Init` of a fresh scene succeeds and leaves exactly eight empty type tables and no entities |
| Scene.SceneTagSetSize | Source/EngineName/Scene.cs:198-205 | the eight registered types are distinct |
| Scene.InitTwiceFails | Source/EngineName/Scene.cs:196-198 | a second `Init` of the same scene throws on the first `Components.Add` |
| Scene.Cleanup | Source/EngineName/Scene.cs:168-174 | the system list is emptied and every system's `Init` (not its `Cleanup`) hook is run, in order; registry and events are kept |
| Systems.NewMulti | Source/EngineName/Systems/AsyncMultiSystem.cs:30-33 | a new multi-system holds a copy of the given systems, not yet bound to a scene |
| Systems.BindScene | Source/EngineName/Core/EcsSystem.cs:14 | the `Scene` setter binds the system to the scene and keeps its identity and children |
| Systems.DispatchVisitsLeaves | Source/EngineName/Systems/AsyncMultiSystem.cs:40-73 | a hook on a system tree calls the hook exactly once on each plain system reached, in depth-first child order |
| Systems.DispatchAllVisitsLeaves | Source/EngineName/Systems/AsyncMultiSystem.cs:40-73 | a hook on a list of systems calls it once on each reachable plain system, in list order |
| Systems.DispatchAllAppend | Source/EngineName/Scene.cs:180-184 | the hook calls of a list with a system appended are those of the list followed by those of the system |
| Systems.MultiForwardsInOrder | Source/EngineName/Systems/AsyncMultiSystem.cs:40-73 | a multi-system of plain systems forwards each hook to every child once, in the order given (nothing runs in parallel) |
| Game.Current | Source/EngineName/Game1.cs:44 | the `Scene` property is the top of the stack, or null exactly when the stack is empty |
| Game.Construct | Source/EngineName/Game1.cs:71-75 | constructing fails the debug assertion exactly when an instance exists; otherwise the stack holds just the initial scene, which is current |
| Game.Initialize | Source/EngineName/Game1.cs:133-153 | `Initialize` runs `Init` of the current scene and succeeds exactly when that does; the scenes below are unchanged |
| Game.EnterScene | Source/EngineName/Game1.cs:95-100 | the scene is pushed and initialised; it becomes current, the scenes below are unchanged, and a failing `Init` propagates |
| Game.LeaveScene | Source/EngineName/Game1.cs:103-113 | an empty stack is left as it is; otherwise the top scene is popped and cleaned up, and the one below becomes current |
| Game.EnterThenLeave | Source/EngineName/Game1.cs:95-113 | entering a scene and leaving it again gives back the original stack and current scene |
| Game.Update | Source/EngineName/Game1.cs:164-173 | with no current scene nothing runs; otherwise exactly the current scene's `Update` |
| Game.Draw | Source/EngineName/Game1.cs:121-130 | with no current scene nothing runs; otherwise exactly the current scene's `Draw` |
| Game.RaiseInScene | Source/EngineName/Game1.cs:62-67 | with no current scene nothing runs; otherwise exactly the current scene's `Raise` |
| Game.RaiseGlobalCoversStack | Source/EngineName/Game1.cs:53-57 | `RaiseGlobal` raises in the top scene first and then in the rest of the stack; with one scene it equals `RaiseInScene` |
| Game.RaiseGlobalCount | Source/EngineName/Game1.cs:53-57 | `RaiseGlobal` runs exactly as many callbacks as the stacked scenes hold under the name, all with the given data |
| EcsEntity.New | Source/EngineName/Core/EcsEntity.cs:30-37 | a new entity takes the incremented shared counter as its id, has no components and no scene |
| EcsEntity.NewMany | Source/EngineName/Core/EcsEntity.cs:30-37 | creating n entities hands out n consecutive ids after the counter and advances it by n |
| EcsEntity.IdsStartAtTwoAndAreDistinct | Source/EngineName/Core/EcsEntity.cs:30-37 | with the counter starting at 1 the first entity gets id 2, and ids strictly increase |
| EcsEntity.AddComponent | Source/EngineName/Core/EcsEntity.cs:50-57 | succeeds iff no component of the same runtime type is attached (otherwise a duplicate-key error); then the component is stored under its type, and the scene is notified exactly when the entity belongs to one |
| EcsEntity.GetComponent | Source/EngineName/Core/EcsEntity.cs:62-71 | yields the component stored under exactly that type, or a missing-key error |
| EcsEntity.HasComponent | Source/EngineName/Core/EcsEntity.cs:78-89 | true exactly when `GetComponent` of the type succeeds |
| EcsEntity.RemoveComponent | Source/EngineName/Core/EcsEntity.cs:96-116 | returns whether a component of the type was attached; afterwards none is, every other type is unchanged, and the scene is notified exactly when something was removed from an entity in a scene |
| EcsEntity.AddThenGet | Source/EngineName/Core/EcsEntity.cs:50-89 | after adding, `HasComponent` of its runtime type is true and `GetComponent` returns it; other types are unaffected |
| EcsEntity.AddThenRemove | Source/EngineName/Core/EcsEntity.cs:50-107 | removing the type just added restores the entity exactly and reports a removal |
| EcsEntity.OnePerType | Source/EngineName/Core/EcsEntity.cs:50-51 | a second component of the same runtime type cannot be added |
| Fps.IntervalOf | Source/EngineName/Systems/FpsCounterSystem.cs:44-46 | the stored interval is the reciprocal of the rate; a rate of zero gives an infinite interval |
| Fps.New | Source/EngineName/Systems/FpsCounterSystem.cs:44-46 | a new counter has that interval, zero counts and a zero timer |
| Fps.Update | Source/EngineName/Systems/FpsCounterSystem.cs:98-100 | an update counts one update and changes nothing else |
| Fps.Publish | Source/EngineName/Systems/FpsCounterSystem.cs:75-83 | every `CFPS` label among the 2D renderables shows the rates; other entries and the iteration order are kept |
| Fps.Draw | Source/EngineName/Systems/FpsCounterSystem.cs:60-88 | a draw counts and advances the timer; nothing is published iff the timer is still below the interval; otherwise draws and updates per second over the interval go to every `CFPS` label, both counts restart and one interval is subtracted from the timer; no other table changes |
| Fps.RunKeepsTimerNonNegative | Source/EngineName/Systems/FpsCounterSystem.cs:60-100 | over any run of updates and draws with non-negative frame times the timer and both counts stay non-negative |
| Fps.InfiniteNeverPublishes | Source/EngineName/Systems/FpsCounterSystem.cs:60-69 | with a zero rate (infinite interval) no run of frames ever touches the registry |
| Logic.Tick | Source/EngineName/Systems/LogicSystem.cs:13-20 | the timer gains dt; the callback runs iff the new timer exceeds the period, and then the timer resets to zero |
| Logic.TickKeepsTimerWithinPeriod | Source/EngineName/Systems/LogicSystem.cs:13-20 | with a non-negative period the timer is never left above the period |
| Logic.UpdateFromOk | Source/EngineName/Systems/LogicSystem.cs:10-11 | the loop succeeds iff every remaining entry of the `CLogic` table is a `CLogic` (the cast throws otherwise) |
| Logic.Update | Source/EngineName/Systems/LogicSystem.cs:10-21 | the update keeps the table's keys and order (its effects are the `Logic.UpdateFrom*` rows) |
| Logic.UpdateFromEntries | Source/EngineName/Systems/LogicSystem.cs:10-21 | every entry from the start position on is replaced by its own tick, entries before it are unchanged: components do not affect each other |
| Logic.UpdateFromFiredOnce | Source/EngineName/Systems/LogicSystem.cs:10-21 | the callbacks run are exactly those of the components whose timer passes the period, each at most once |
| Logic.UpdateFromFireArgs | Source/EngineName/Systems/LogicSystem.cs:19 | every run passes the total time and the component's own period, for a component of the table |
| Physics.Integrate | Source/EngineName/Systems/PhysicsSystem.cs:112-113 | semi-implicit Euler: the velocity first takes gravity minus inverse-mass-weighted linear drag over dt, then the position moves by dt times the NEW velocity; nothing else of the body changes |
| Physics.IntegrateWithoutDrag | Source/EngineName/Systems/PhysicsSystem.cs:112-113 | without drag a step adds dt·gravity to the velocity and moves the position by dt·v + dt²·gravity |
| Physics.BoxOf | Source/EngineName/Systems/PhysicsSystem.cs:118-119 | a body's world box is its local box translated by its position |
| Physics.WallAxis | Source/EngineName/Systems/PhysicsSystem.cs:126-133 | on one axis: a box below the lower bound is placed against it and the velocity reversed; else a box above the upper bound is placed against that; otherwise position and velocity are kept |
| Physics.WallAxisKeepsInside | Source/EngineName/Systems/PhysicsSystem.cs:126-133 | a box no wider than the world ends the wall rule inside the world on that axis, with the speed on that axis kept |
| Physics.Clamp | Source/EngineName/Systems/PhysicsSystem.cs:126-151 | the three axes are clamped independently by the wall rule; nothing but position and velocity changes |
| Physics.ClampInside | Source/EngineName/Systems/PhysicsSystem.cs:126-151 | a box that fits the world is inside the world after the clamp, and the clamp keeps the speed |
| Physics.SteppedInsideWorld | Source/EngineName/Systems/PhysicsSystem.cs:112-151 | a body whose box fits the world ends every step inside the world, with the speed integration gave it |
| Physics.Broad | Source/EngineName/Systems/PhysicsSystem.cs:162-179 | the inner loop fails (invalid cast) iff some remaining entry is not a `CBody`; otherwise it records each later-keyed body whose box meets the outer body's box, listed by that body's table position |
| Physics.TransformOf | Source/EngineName/Systems/PhysicsSystem.cs:155-156 | looking up and casting a transform succeeds iff the entity has a `CTransform`; a missing entry is a missing-key error and a wrong type an invalid cast |
| Physics.Advance | Source/EngineName/Systems/PhysicsSystem.cs:107-156 | one outer iteration replaces the body by its stepped self and its transform's position by the new position, changing no other entry |
| Physics.SeenAt | Source/EngineName/Systems/PhysicsSystem.cs:107-113 | in the iteration at position i, bodies before i are already stepped and the others not yet |
| Physics.StepFrom | Source/EngineName/Systems/PhysicsSystem.cs:107-179 | the outer loop keeps the key sets and iteration orders of the body and transform tables (its effects are the `StepFrom*` rows) |
| Physics.BroadAtStep | Source/EngineName/Systems/PhysicsSystem.cs:162-179 | the inner loop of one outer iteration succeeds and finds exactly the pairs of the reference rule (second key larger, the outer body's pre-clamp box meets the other body's box as the loop sees it), each once |
| Physics.StepNext | Source/EngineName/Systems/PhysicsSystem.cs:107-179 | one outer iteration moves the tables to the state of the next position: the body stepped, its transform moved, the found pairs those of the reference rule, and the rest of the loop unchanged |
| Physics.StepFromOk | Source/EngineName/Systems/PhysicsSystem.cs:107-156 | over an all-`CBody` table the outer loop succeeds iff every remaining body entity has a `CTransform` |
| Physics.StepFromBodies | Source/EngineName/Systems/PhysicsSystem.cs:107-151 | after a successful outer loop every body in the table is its stepped original |
| Physics.StepFromTransforms | Source/EngineName/Systems/PhysicsSystem.cs:153-156 | after a successful outer loop every body's transform holds that body's new position and every other transform is unchanged |
| Physics.StepFromPairs | Source/EngineName/Systems/PhysicsSystem.cs:162-179 | the outer loop's pair list is exactly the reference pairs, each once |
| Physics.Positions | Source/EngineName/Systems/PhysicsSystem.cs:153-156 | the new positions, one per body, each that body's position after its step |
| Physics.Bodies | Source/EngineName/Systems/PhysicsSystem.cs:107-108 | the casts of an all-`CBody` table, in iteration order |
| Physics.Update | Source/EngineName/Systems/PhysicsSystem.cs:94-180 | the integration and broad phase change only the body and transform tables, keep entities and types; a transform table holding a non-`CTransform` fails with an invalid cast |
| Physics.UpdateOk | Source/EngineName/Systems/PhysicsSystem.cs:96-156 | `Update` up to the solver succeeds iff every transform entry is a `CTransform` (the cast of line 96) and the body table is empty or all its entries are `CBody` with a `CTransform` each; a bad transform entry is an invalid cast |
| Physics.UpdateTables | Source/EngineName/Systems/PhysicsSystem.cs:105-156 | after `Update` every body is its stepped original, each body's transform has the new position, and transforms of non-bodies are unchanged |
| Physics.UpdatePairs | Source/EngineName/Systems/PhysicsSystem.cs:105-179 | the potential-collision list after `Update` contains exactly the reference pairs, each once, both keys bodies and the first below the second, ordered by the first key's table position and then the second's |
| Physics.MassOf | Source/EngineName/Systems/PhysicsSystem.cs:229-230 | an inverse mass of magnitude above 0.0001 gives its reciprocal; a smaller one stands for infinite mass and gives 0 |
| Physics.PushFirst | Source/EngineName/Systems/PhysicsSystem.cs:236-237 | the first body's velocity changes by its inverse mass times the impulse |
| Physics.PushSecond | Source/EngineName/Systems/PhysicsSystem.cs:239-240 | the second body's velocity changes by minus its inverse mass times the impulse |
| Physics.Resolve | Source/EngineName/Systems/PhysicsSystem.cs:204-241 | a pair whose squared centre distance is at least the squared radius sum is not touching, and exactly then; the only failures are the degenerate cases (zero centre distance, or `MassOf` of the two inverse masses summing to zero) |
| Physics.ImpulseOf | Source/EngineName/Systems/PhysicsSystem.cs:214-240 | a resolved pair has non-zero centre distance and finite total mass, and its bodies are the two pushes of the impulse along the unit normal |
| Physics.MomentumConserved | Source/EngineName/Systems/PhysicsSystem.cs:229-240 | for two finite masses, the momentum changes of a resolved pair cancel |
| Physics.MomentumOfPush | Source/EngineName/Systems/PhysicsSystem.cs:229-240 | the momentum changes of the two pushes cancel for finite masses |
| Physics.UnitNormal | Source/EngineName/Systems/PhysicsSystem.cs:214-215 | `Normalize` of a non-zero vector has length one |
| Physics.UnitMassesSwapNormalVelocities | Source/EngineName/Systems/PhysicsSystem.cs:217-240 | two default-mass bodies exchange their velocity components along the collision normal |
| Physics.SwapOfPush | Source/EngineName/Systems/PhysicsSystem.cs:229-240 | for unit inverse masses and a unit normal the impulse swaps the normal velocity components |
| Physics.PushApart | Source/EngineName/Systems/PhysicsSystem.cs:234-239 | pushing both centres half the overlap apart along the unit normal scales their difference to the radius sum over the distance |
| Physics.UnitMassesEndTouching | Source/EngineName/Systems/PhysicsSystem.cs:204-239 | two default-mass bodies that overlap end exactly touching: their centre distance is the radius sum |
| Physics.TouchOfPush | Source/EngineName/Systems/PhysicsSystem.cs:234-239 | for unit inverse masses the push leaves the squared centre distance equal to the squared radius sum |
| Physics.BodyAt | Source/EngineName/Systems/PhysicsSystem.cs:200-201 | reading a body succeeds iff a `CBody` is stored for the id; a missing entry is a missing-key error and another type an invalid cast |
| Physics.SolvePair | Source/EngineName/Systems/PhysicsSystem.cs:199-245 | one pair changes at most the two bodies of that pair; entities, types and which ids have bodies stay |
| Physics.StoreBodies | Source/EngineName/Systems/PhysicsSystem.cs:236-240 | writing both bodies back changes only those two lookups; when the pair's ids coincide the second write wins |
| Physics.SolvePairOutcome | Source/EngineName/Systems/PhysicsSystem.cs:199-245 | a pair fails only on a missing or mistyped body or a degenerate case; it reports a collision iff it resolves one, leaves the registry as it was otherwise, and after a resolution both bodies are the pushed ones |
| Physics.SolveCollisions | Source/EngineName/Systems/PhysicsSystem.cs:193-246 | the solver changes only bodies named by some pair, keeps entities and types, and reports at most one collision per pair, each one of the pairs |
| Physics.SolveNext | Source/EngineName/Systems/PhysicsSystem.cs:196-245 | one more pair after a run: a failed run stays failed, the pair fails iff its own solve fails, and otherwise the registry is the pair's result and the pair is reported after the run's pairs exactly when it resolved |
| Physics.SolveSnoc | Source/EngineName/Systems/PhysicsSystem.cs:193-246 | solving a list plus one pair is solving the list and then that pair against the registry it left, so the reported pairs are exactly the pairs, in list order, whose own step resolved |
| Physics.NoCollisionNoChange | Source/EngineName/Systems/PhysicsSystem.cs:209-212 | when every pair is read and none is resolved (apart, or moving away from each other), the solver changes nothing and reports no collision |
| Physics.CollisionEventsCount | Source/EngineName/Systems/PhysicsSystem.cs:244 | each resolved pair raises `collision` once, so every callback runs once per resolved pair, always with null data |
| Physics.SystemUpdate | Source/EngineName/Systems/PhysicsSystem.cs:94-185 | the system update succeeds iff integration and the solver do; it keeps the entities, returns the potential-collision list of the integration, its registry is the solver's, its event trace is one `collision` raise (with no data) per resolved pair in order, and nothing of the scene but its registry changes |
| Particles.SpawnParticles | Source/EngineName/Systems/ParticleSystem.cs:92-96 | the callback is queued once per particle after the earlier ones; a negative count queues nothing |
| Particles.Age | Source/EngineName/Systems/ParticleSystem.cs:70-78 | a particle always loses dt of life; one whose life is then not positive keeps its state, any other gains dt·force in velocity and then moves by dt times the new velocity |
| Particles.AddAll | Source/EngineName/Systems/ParticleSystem.cs:59-61 | after adding each returned component under its runtime type, the entity holds every one of them, its earlier components stay, and no other entity changes |
| Particles.AddAllStep | Source/EngineName/Systems/ParticleSystem.cs:59-61 | adding the first component and then the rest places all of them |
| Particles.AddAllOnePerType | Source/EngineName/Systems/ParticleSystem.cs:59-61 | the adds succeed only if no two returned components share a class and the entity held none of those classes before (a second one of a class throws) |
| Particles.SpawnAll | Source/EngineName/Systems/ParticleSystem.cs:55-62 | one new entity per queued callback, with consecutive ids after the counter, appended to the entities; entities that existed before are unchanged |
| Particles.HoldsKept | Source/EngineName/Systems/ParticleSystem.cs:55-62 | the components placed on an entity survive the spawning of later entities |
| Particles.SpawnAllUnfold | Source/EngineName/Systems/ParticleSystem.cs:55-62 | the first spawned entity gets the next id and holds its callback's components before the rest are spawned, and no other id's components change |
| Particles.SpawnAllHolds | Source/EngineName/Systems/ParticleSystem.cs:55-62 | each spawned entity holds every component its callback returned |
| Particles.SpawnThenDraw | Source/EngineName/Systems/ParticleSystem.cs:55-96 | queuing n callbacks makes the next `Draw` hand out that many more ids and leaves the queue empty |
| Particles.AgeFrom | Source/EngineName/Systems/ParticleSystem.cs:67-82 | the ageing loop keeps the keys and iteration order of both the particle and the transform table |
| Particles.AgeOne | Source/EngineName/Systems/ParticleSystem.cs:68-81 | ageing one particle replaces only that particle by its aged self, and writes the new position into its transform only if it survives |
| Particles.AgeOneKeeps | Source/EngineName/Systems/ParticleSystem.cs:68-81 | ageing one particle leaves every other particle and every other entity's transform as it was |
| Particles.AgeFromOk | Source/EngineName/Systems/ParticleSystem.cs:67-82 | the ageing loop succeeds iff every remaining entry is a `CParticle` and every surviving one has a `CTransform` |
| Particles.AgeFromParticles | Source/EngineName/Systems/ParticleSystem.cs:67-78 | after the loop every particle from the start on holds its aged value, dead or alive; earlier entries are untouched |
| Particles.AgeFromTransforms | Source/EngineName/Systems/ParticleSystem.cs:80-81 | each surviving particle's transform holds its new position; every other transform is untouched |
| Particles.AgeFromExpired | Source/EngineName/Systems/ParticleSystem.cs:70-73 | the ids queued for removal are exactly the particles whose life ran out, each once |
| Particles.RemoveAll | Source/EngineName/Systems/ParticleSystem.cs:84-86 | every queued id is gone from the entities and from every table; other entities and their components are unchanged |
| Particles.Draw | Source/EngineName/Systems/ParticleSystem.cs:50-87 | a successful `Draw` empties the queue, hands out one id per queued callback and keeps the registry invariant |
| Particles.WriteTables | Source/EngineName/Systems/ParticleSystem.cs:67-82 | the particle and transform tables are put back where registered; no other table changes |
| Particles.AgedAt | Source/EngineName/Systems/ParticleSystem.cs:67-86 | for one particle of the spawned registry, after ageing, writing back and removal: an expired one's entity is gone with every component, a survivor holds its aged state and its transform its new position |
| Particles.DrawAges | Source/EngineName/Systems/ParticleSystem.cs:55-86 | after `Draw` every particle present after spawning is either expired, and then its entity and all its components are gone, or holds its aged value with its transform at the new position |
| Particles.SpawnAllKeeps | Source/EngineName/Systems/ParticleSystem.cs:55-62 | the spawning loop changes no component of any id outside the block of ids it hands out, including ids that held components without being live |
| Particles.AgedKeeps | Source/EngineName/Systems/ParticleSystem.cs:67-82 | an entity with no particle is never queued for removal, and writing back the aged tables leaves all of its components as they were |
| Particles.DrawKeepsOthers | Source/EngineName/Systems/ParticleSystem.cs:50-87 | an id that `Draw` did not spawn and that holds no particle after spawning is live afterwards exactly when it was before, and keeps every component it had |
| Input.Move | Source/EngineName/Systems/InputSystem.cs:58-65 | the forward key takes 5 off the Z velocity and backward adds 5, left takes 5 off X and right adds 5; Y and everything else are kept |
| Input.OppositeKeysCancel | Source/EngineName/Systems/InputSystem.cs:58-65 | forward with backward, or left with right, leave that velocity component as it was, and with no movement key the body is unchanged |
| Input.Drive | Source/EngineName/Systems/InputSystem.cs:31-47 | camera-forward and camera-backward slide the target by plus or minus `CAMERASPEED` times the forward vector; camera-left takes 0.05 off the heading and camera-right adds 0.05; after a turn the position is the target minus the orbit offset of the new heading, otherwise it has slid with the target; nothing else of the camera changes |
| Input.DriveCancels | Source/EngineName/Systems/InputSystem.cs:31-47 | forward with backward keeps the target, left with right keeps the heading, and with no camera key the camera and position are unchanged |
| Input.CameraAt | Source/EngineName/Systems/InputSystem.cs:29 | reading a camera succeeds iff a `CCamera` is stored for the entity |
| Input.TransformAt | Source/EngineName/Systems/InputSystem.cs:27 | reading a transform succeeds iff a `CTransform` is stored for the entity |
| Input.BodyAt | Source/EngineName/Systems/InputSystem.cs:52 | reading a body succeeds iff a `CBody` is stored for the entity |
| Input.SteerCamera | Source/EngineName/Systems/InputSystem.cs:26-48 | needs the camera table; an entity without a camera is left alone; one with a camera needs a transform and a `CInput`; only that entity's camera and transform may change |
| Input.SteerCameraDrives | Source/EngineName/Systems/InputSystem.cs:26-48 | an entity with a camera ends with the camera and transform position the camera keys give |
| Input.Steer | Source/EngineName/Systems/InputSystem.cs:25-65 | one input entity: needs the camera and body tables; its body, if any, is nudged, its camera and transform are kept if it has no camera, and no other entity or table changes |
| Input.SteerDrives | Source/EngineName/Systems/InputSystem.cs:26-52 | the body write after the camera half leaves the driven camera and transform in place |
| Input.SteerAll | Source/EngineName/Systems/InputSystem.cs:25-93 | the pass keeps entities, types and the registry invariant |
| Input.Update | Source/EngineName/Systems/InputSystem.cs:20-94 | the update keeps the registry invariant and the entity list (its effects are the `Input.UpdateSteers` row) |
| Input.SteerAllOthers | Source/EngineName/Systems/InputSystem.cs:25-93 | the pass writes only the bodies, cameras and transforms of input entities |
| Input.SteerAllBodies | Source/EngineName/Systems/InputSystem.cs:50-65 | every input entity with a body ends with its original body nudged exactly once |
| Input.SteerAllCameras | Source/EngineName/Systems/InputSystem.cs:26-47 | every input entity with a camera ends with its original camera and transform driven exactly once |
| Input.UpdateSteers | Source/EngineName/Systems/InputSystem.cs:20-94 | a successful update drives the camera and transform of every `CInput` entity that has a camera and nudges the body of every one that has a body, each once, and changes nothing else |
| Menu.New | Source/EngineName/MenuScene.cs:49-89 | a menu starts with no items, index 0, unlocked, keys Up, Down and Enter |
| Menu.Init | Source/EngineName/MenuScene.cs:96-110 | `Init` appends a 2D rendering system bound to the scene, succeeds exactly when the scene's own `Init` does, runs every system's `Init`, and puts the `--->` highlight on a new entity as a 2D renderable |
| Menu.MoveUp | Source/EngineName/MenuScene.cs:128-131 | moving up from the first item wraps to the last, otherwise goes back by one; the index stays in range |
| Menu.MoveDown | Source/EngineName/MenuScene.cs:141-144 | moving down from the last item wraps to the first, otherwise goes on by one; the index stays in range |
| Menu.UpDownCancel | Source/EngineName/MenuScene.cs:126-150 | up and down undo each other, in either order |
| Menu.Draw | Source/EngineName/MenuScene.cs:116-163 | fails (index out of range) exactly when the selected index is not an item; otherwise the highlight takes the row of the item selected at the start of the frame, the index stays in range, and the menu is unlocked next frame iff none of the three keys is held |
| Menu.LockedDoesNothing | Source/EngineName/MenuScene.cs:126-160 | while locked no key moves the selection, raises an event or runs a callback |
| Menu.UnlockedMoves | Source/EngineName/MenuScene.cs:126-160 | unlocked, up moves one step and raises `selchanged` with the new index, then down does the same, then select runs the callback of the item reached |
| Menu.HeldKeyActsOnce | Source/EngineName/MenuScene.cs:124-162 | a key held over two frames acts only in the first: the second frame does nothing |
| Menu.DrawRegistered | Source/EngineName/MenuScene.cs:103-118 | the highlight `Draw` moves is the `CText` registered for the highlight entity: the frame succeeds iff `Draw` does, and the entity's 2D renderable then holds the moved highlight; no other component changes |
| Menu.InitThenDraw | Source/EngineName/MenuScene.cs:96-118 | after `Init` and one frame, the registered highlight sits at x = 150 on the row of the first item |
| Menu.Trunc | Source/EngineName/MenuScene.cs:180 | the `(int)` conversion truncates toward zero |
| Menu.CreateLabel | Source/EngineName/MenuScene.cs:173-198 | a new item with the text and callback is appended at x = 300, on y = 100 if it is the first and otherwise 30 below the truncated y of the previous one; it gets a new entity holding its text as a 2D renderable; fails when the 2D table is missing or already holds the new id |
| Menu.CreateLabels | Source/EngineName/MenuScene.cs:173-198 | creating labels in a row appends one item per text, keeping the earlier items |
| Menu.CreateLabelRow | Source/EngineName/MenuScene.cs:176-181 | on a menu laid out so far, the new label lands on the next row |
| Menu.LabelRows | Source/EngineName/MenuScene.cs:176-181 | labels created in a row sit at (300, 100 + 30·i) for the i-th item |
| Menu.RunStaysInRange | Source/EngineName/MenuScene.cs:116-163 | once the selection is an item, no run of frames fails or moves it out of range, and the items never change |
| Mesh.Lattice | Source/EngineName/Systems/WaterSystem.cs:49-65 | a row-major grid filled by nested x/y loops holds exactly `w * h` entries |
| Mesh.LatticeAt | Source/EngineName/Systems/WaterSystem.cs:52-65 | the entry written at index `x + y * w` is the value for grid point `(x, y)`, for every point of the grid |
| Mesh.LatticeAll | Source/EngineName/Systems/WaterSystem.cs:52-65 | a property every grid value has holds of every array entry |
| Mesh.FlattenBlocks | Source/EngineName/Systems/MapSystem.cs:49-68 | appending six-index blocks in order puts entry `k` of block `i` at position `6 i + k` and gives `n` entries per block |
| Mesh.FlattenAll | Source/EngineName/Systems/MapSystem.cs:49-68 | a property of every entry of every block holds of every entry of the concatenation |
| Mesh.Cell | Source/EngineName/Systems/MapSystem.cs:55-66 | each grid cell contributes exactly six indices |
| Mesh.CellInGrid | Source/EngineName/Systems/MapSystem.cs:55-66 | a cell's six indices name vertices of the grid and form two triangles sharing the top-left/lower-right diagonal over four distinct vertices |
| Mesh.GridSize | Source/EngineName/Systems/MapSystem.cs:50 | the index list of a `w` by `h` grid has `(w - 1)(h - 1) * 6` entries, the array size the code allocates |
| Mesh.GridCellAt | Source/EngineName/Systems/MapSystem.cs:51-68 | the counter walk places entry `k` of cell `(x, y)` at `6 (x + y (w - 1)) + k` |
| Mesh.GridLayout | Source/EngineName/Systems/MapSystem.cs:49-68 | the index list has the allocated length and lays every cell out row by row, left to right |
| Mesh.GridInRange | Source/EngineName/Systems/MapSystem.cs:55-66 | every index names a vertex of the `w * h` grid |
| Map.MaterialPick | Source/EngineName/Systems/MapSystem.cs:28-41 | green code 255 gives brown, 240 yellow, and every other code (250 included) pink, each exactly |
| Map.ChunkIndices | Source/EngineName/Systems/MapSystem.cs:45-68 | the chunk index array fails with a negative-size error exactly when `(w/20 - 1)(h/20 - 1)` is negative, otherwise has six entries per chunk cell |
| Map.ChunkIndicesGrid | Source/EngineName/Systems/MapSystem.cs:51-68 | for images at least 20 texels each way every chunk index names a chunk vertex and every cell is laid out |
| Map.ChunkIndicesSmallImages | Source/EngineName/Systems/MapSystem.cs:50 | an image under 20 texels both ways gets the six-zero array `(-1)(-1) * 6`, and one narrow but tall fails with a negative size |
| Map.CreateIndicesChunks | Source/EngineName/Systems/MapSystem.cs:43-72 | the recursion succeeds only when the chunk index array can be built |
| Map.CreateIndicesChunksKeys | Source/EngineName/Systems/MapSystem.cs:69-71 | from counter `c`, the dictionary gains keys `c` to 399, each holding the same index array, and keeps earlier keys |
| Map.IndicesFromZero | Source/EngineName/Systems/MapSystem.cs:197 | the call from 0 gives exactly keys 0 to 399, all holding the chunk index array, or fails with it |
| Map.HeightData | Source/EngineName/Systems/MapSystem.cs:113-116 | the height grid is `width` columns of `height` texels |
| Map.HeightDataAt | Source/EngineName/Systems/MapSystem.cs:116 | grid cell `[x, y]` is texel `x + y * width` of the colour map |
| Map.HeightDataCovers | Source/EngineName/Systems/MapSystem.cs:114-116 | every texel `i` of the colour map lands at `[i % width, i / width]` |
| Map.HeightDataMembers | Source/EngineName/Systems/MapSystem.cs:113-116 | a pixel appears in the height grid exactly when it appears in the image |
| Map.ScanOrder | Source/EngineName/Systems/MapSystem.cs:120-128 | the x-outer, y-inner scan visits exactly the image's texels |
| Map.ScanOrderLast | Source/EngineName/Systems/MapSystem.cs:120-128 | the scan of a non-empty image ends on the image's last texel |
| Map.ScanAsWrittenTakesLast | Source/EngineName/Systems/MapSystem.cs:118-129 | with `minHeight` and `maxHeight` never updated, every byte-valued texel passes both tests, so both extremes end as the last texel's red value |
| Map.ScanLowest | Source/EngineName/Systems/MapSystem.cs:120-128 | a scan that tracks its minimum ends on a red value that occurs and bounds every texel from below, or keeps the old value when none is below the start |
| Map.ScanHighest | Source/EngineName/Systems/MapSystem.cs:120-128 | the same for the maximum, from above |
| Map.CalculateHeightDataAsWritten | Source/EngineName/Systems/MapSystem.cs:105-130 | fails exactly when the texel array does not fill the image, and otherwise fills the height grid from the image |
| Map.AsWrittenExtremesAreLastTexel | Source/EngineName/Systems/MapSystem.cs:118-129 | as written, the lowest and highest points of a non-empty image both equal the red value of its last texel |
| Map.AsWrittenMissesMinimum | Source/EngineName/Systems/MapSystem.cs:118-129 | as written, an image with red values 0 and 255 gets lowest point 255 |
| Map.CalculateHeightData | Source/EngineName/Systems/MapSystem.cs:105-130 | fails exactly when the texel array does not fill the image; otherwise changes only the height grid and the two extremes, and fills the grid from the image |
| Map.HeightExtremes | Source/EngineName/Systems/MapSystem.cs:118-129 | with the comparison values updated, the lowest and highest points are red values of some texel and bound every texel |
| Map.CorrectedFindsMinimum | Source/EngineName/Systems/MapSystem.cs:118-129 | the corrected scan gives lowest 0 and highest 255 for the red values 0 and 255 |
| Map.OffsetSteps | Source/EngineName/Systems/MapSystem.cs:142-154 | the y offset of chunk `k` is `(h - 1)(k % 20)` and steps by `h - 1` within a column of chunks; the x offset steps by `w - 1` every 20 chunks |
| Map.TexelAt | Source/EngineName/Systems/MapSystem.cs:155-159 | inside the map, the vertex for chunk point `(x, y)` is the terrain vertex of texel `(x + xo, y + yo)` |
| Map.ChunkVertices | Source/EngineName/Systems/MapSystem.cs:147-164 | a chunk's vertex array is built exactly when every texel it reads exists, fails with an index error otherwise, and has `w * h` vertices |
| Map.ChunkVertexAt | Source/EngineName/Systems/MapSystem.cs:155-159 | vertex `x + y * w` lies at `(x + xo, red, y + yo)` with the material colour of the texel's green value |
| Map.ChunkLoopUnfold | Source/EngineName/Systems/MapSystem.cs:132-170 | one recursion step: fail if the chunk fails or the key exists, else add chunk `k` at its offset and recurse while `k + 1 < 400` |
| Map.ChunkLoopOk | Source/EngineName/Systems/MapSystem.cs:132-170 | the recursion from `k` succeeds exactly when every chunk `k` to 399 builds at its offset |
| Map.ChunkLoopKeys | Source/EngineName/Systems/MapSystem.cs:165-169 | after the recursion from `k` the dictionary holds keys `k` to 399, each the chunk at its offset, and keeps earlier keys |
| Map.VerticesFromZero | Source/EngineName/Systems/MapSystem.cs:199 | the call from 0 succeeds exactly when all 400 chunks build, and then holds exactly keys 0 to 399, chunk `j` at its offset |
| Map.ColumnSeam | Source/EngineName/Systems/MapSystem.cs:152-156 | the last row of chunk `k` and the first row of chunk `k + 1` read the same texels, so neighbouring chunks share a seam |
| Map.RowSeam | Source/EngineName/Systems/MapSystem.cs:142-146 | the last column of chunk `k` and the first column of chunk `k + 20` read the same texels |
| MapLoad.ChunksInside | Source/EngineName/Systems/MapSystem.cs:137-159 | for a well-formed image every one of the 400 chunks reads only texels inside the image |
| MapLoad.Range | Source/EngineName/Systems/MapSystem.cs:201 | the chunk numbers the mesh loop visits are exactly `0` to `n - 1` |
| MapLoad.LoadHeightmap | Source/EngineName/Systems/MapSystem.cs:174-241 | on success the heightmap is its corrected height-data form with the model attached |
| MapLoad.LoadWith | Source/EngineName/Systems/MapSystem.cs:191-241 | whichever height scan is chosen, a successful load returns that scan's heightmap with the model attached |
| MapLoad.LoadHeightmapAsWritten | Source/EngineName/Systems/MapSystem.cs:174-241 | on success the heightmap is its as-written height-data form with the model attached |
| MapLoad.LoadHeightmapErrors | Source/EngineName/Systems/MapSystem.cs:197-198 | a negative chunk array size fails first with a negative-size error; otherwise an image whose texels do not fill it fails with an index error |
| MapLoad.LoadHeightmapTooSmall | Source/EngineName/Systems/MapSystem.cs:74-93 | a filled image under 20 texels both ways gets six zero indices against empty vertex chunks, so the normal computation reads past the chunk and the load fails with an index error |
| MapLoad.NormalsInside | Source/EngineName/Systems/MapSystem.cs:74-93 | for an image at least 20 texels each way every chunk's triangles name only that chunk's vertices, so the normal computation stays inside it |
| MapLoad.LoadHeightmapSteps | Source/EngineName/Systems/MapSystem.cs:191-240 | for an image at least 20 texels each way, when each step can succeed the terrain is made of exactly the index chunks, the vertex chunks over the corrected height data, and the ground |
| MapLoad.LoadHeightmapOk | Source/EngineName/Systems/MapSystem.cs:174-241 | a well-formed heightmap at least 20 texels each way whose index list fits a `short` loads; it keeps its image, gets the model and the image's height grid, its extremes bound every red value, and the ground lies on the map border |
| MapLoad.LoadHeightmapChunks | Source/EngineName/Systems/MapSystem.cs:197-224 | a loaded terrain of an image at least 20 texels each way holds index and vertex arrays for exactly the chunks 0 to 399, chunk `k`'s vertices taken at its offset |
| MapLoad.AsWrittenLoadDiffers | Source/EngineName/Systems/MapSystem.cs:174-241 | as written, a map deeper than it is wide fails with an index error in the ground while the corrected loader succeeds; any other map loads with both extremes the last texel's red value and the same chunks as the corrected loader |
| MapLoad.LoadOne | Source/EngineName/Systems/MapSystem.cs:178-182 | one loop pass succeeds exactly when the renderable is stored and, if a heightmap, loads; it replaces only that renderable and records its terrain |
| MapLoad.LoadAll | Source/EngineName/Systems/MapSystem.cs:178-241 | the loop keeps the registry valid, with the same entities and tables |
| MapLoad.Load | Source/EngineName/Systems/MapSystem.cs:174-241 | `Load` keeps the registry valid and the entities unchanged |
| MapLoad.LoadAllOthers | Source/EngineName/Systems/MapSystem.cs:178-182 | the loop changes only the renderables of the entities it visits, and records terrains only for them |
| MapLoad.LoadAllOk | Source/EngineName/Systems/MapSystem.cs:178-241 | over distinct ids the loop succeeds exactly when every id has a renderable and every heightmap among them loads |
| MapLoad.LoadAllLoaded | Source/EngineName/Systems/MapSystem.cs:178-241 | after the loop each visited renderable is in its loaded form and each heightmap's terrain is recorded under its entity |
| MapLoad.LoadEffect | Source/EngineName/Systems/MapSystem.cs:174-241 | `Load` succeeds exactly when every heightmap renderable loads; then each heightmap carries its model and terrain, other renderables are kept, and every other component is unchanged |
| Ground.Span | Source/EngineName/Systems/MapSystem.cs:260 | a border loop over `n` texels makes `n - 1` passes, and none when `n < 1` |
| Ground.Quad | Source/EngineName/Systems/MapSystem.cs:270-275 | a face is six saddle-brown vertices with the face normal: (top-left, bottom-right, bottom-left) then (top-left, top-right, bottom-right) |
| Ground.FrontBack | Source/EngineName/Systems/MapSystem.cs:260-291 | each front/back pass adds twelve vertices |
| Ground.Sides | Source/EngineName/Systems/MapSystem.cs:293-323 | each left/right pass adds twelve vertices |
| Ground.IndexList | Source/EngineName/Systems/MapSystem.cs:327-331 | when `12 (width + depth)` exceeds 32767 the `short` counter wraps and the list grows until allocation fails (`OutOfMemory`); otherwise it gives `0, 1, 2, …` of that length |
| Ground.Build | Source/EngineName/Systems/MapSystem.cs:244-342 | building succeeds exactly when every border texel read exists and the index list fits a `short`; a missing texel fails with an index error and a too-long list fails with `OutOfMemory`, the exception its runaway growth ends inhes |
| Ground.SkirtLength | Source/EngineName/Systems/MapSystem.cs:258-323 | the vertex list has twelve vertices per pass of each loop |
| Ground.SkirtAt | Source/EngineName/Systems/MapSystem.cs:258-323 | the vertex list holds the front/back passes in column order, then the left/right passes in row order |
| Ground.SkirtFrontBackAt | Source/EngineName/Systems/MapSystem.cs:260-291 | entry `k` of the front/back pass at column `x` is vertex `12 x + k` |
| Ground.SkirtSidesAt | Source/EngineName/Systems/MapSystem.cs:293-323 | entry `k` of the left/right pass at row `z` comes after all front/back vertices at `12 z + k` |
| Ground.GroundCounts | Source/EngineName/Systems/MapSystem.cs:325-339 | the mesh draws every vertex once in order; the index list is 24 entries longer than the vertex list, and the extra entries are never drawn |
| Ground.SkirtFaces | Source/EngineName/Systems/MapSystem.cs:259-323 | every vertex lies on its face's border line: front on row `d - 1`, back on row 0, left on column 0, right on the right-face column |
| Ground.GroundOnBorder | Source/EngineName/Systems/MapSystem.cs:244-342 | with the right face on column `width - 1`, a well-formed map whose index list fits a `short` gets a ground whose every vertex lies on the map border |
| Ground.AsWrittenDeepMapFails | Source/EngineName/Systems/MapSystem.cs:310-312 | as written, a map deeper than it is wide makes the right face read past the last column |
| Ground.AsWrittenShallowMapBuilds | Source/EngineName/Systems/MapSystem.cs:310-312 | as written, a map no deeper than it is wide builds its ground |
| Ground.AsWrittenRightFaceInside | Source/EngineName/Systems/MapSystem.cs:310-322 | as written, on a 3-by-2 map the right face is drawn on column 1, inside the map, not on column 2 |
| Water.Direction | Source/EngineName/Systems/WaterSystem.cs:63 | a draw above 50 points the vertex down (-1), and any other draw points it up (+1) |
| Water.GridSizes | Source/EngineName/Systems/WaterSystem.cs:48-50 | `n * n` vertices and vibrations and `(n - 1)^2 * 6` indices; the mesh part's vertex count is the index count and it has one primitive per three indices |
| Water.WaterSizes | Source/EngineName/Systems/WaterSystem.cs:44-50 | the 1081-by-1081 water has 1168561 vertices and vibrations and 6998400 indices |
| Water.GridAt | Source/EngineName/Systems/WaterSystem.cs:52-65 | vertex `x + y * n` lies at `(x, lowest + 10, y)`, is blue with alpha 100, and its vibration comes from the `(x n + y)`-th draw |
| Water.GridShape | Source/EngineName/Systems/WaterSystem.cs:52-83 | the surface is flat at `lowest + 10`, every vibration is ±1, and every index names a vertex |
| Water.GridCells | Source/EngineName/Systems/WaterSystem.cs:66-83 | every cell's two triangles are laid out at `6 (x + y (n - 1))` |
| Water.LastHeightmap | Source/EngineName/Systems/WaterSystem.cs:33-37 | the loop finds a heightmap exactly when one of the visited renderables is one, and what it finds is one of them |
| Water.LastHeightmapIsLast | Source/EngineName/Systems/WaterSystem.cs:33-135 | the model kept is built from the last heightmap the loop visits: no heightmap comes after it |
| Water.WaterModelSeen | Source/EngineName/Systems/WaterSystem.cs:32-138 | a water mesh is built exactly when the renderables hold a heightmap, and it is the grid over the last one in table order |
| Water.HeightmapSeen | Source/EngineName/Systems/WaterSystem.cs:33-37 | a pass over a whole table finds a heightmap exactly when the table holds one |
| Water.Load | Source/EngineName/Systems/WaterSystem.cs:30-144 | succeeds exactly when both tables exist and the new id is free; the new entity gets the fixed placement transform and a model renderable that is null when no heightmap was seen, and nothing else changes |
| Water.AddWater | Source/EngineName/Systems/WaterSystem.cs:139-143 | adds one fresh entity with the placement transform and the imported-model renderable, and changes nothing else |
| Bounds.MinMaxAxis | Source/EngineName/Utils/GraphicsUtil.cs:28-29 | the component-wise min and max pick, on each axis, the smaller and the larger coordinate |
| Bounds.BuildBoundingBoxForVertex | Source/EngineName/Utils/GraphicsUtil.cs:15-40 | every vertex lies in the box, and each bound is its sentinel or some vertex's coordinate; an empty array gives the inverted sentinel box, and a non-empty one in float range gives the tight min/max box |
| DebugOverlay.CornerAt | Source/EngineName/Systems/DebugOverlay.cs:132-157 | the vertex written at loop counters `(block, i, j, k)` is entry `8 block + 4 i + 2 j + k` |
| DebugOverlay.CreateAabb | Source/EngineName/Systems/DebugOverlay.cs:129-160 | 24 vertices, all unit-cube corners centred on the origin; line `p` (vertices `2p`, `2p + 1`) changes exactly one coordinate, from -0.5 to 0.5 |
| DebugOverlay.MidAt | Source/EngineName/Systems/DebugOverlay.cs:135-157 | line `4 block + 2 s + t` runs along its loop's axis through the edge at counters `(s, t)` |
| DebugOverlay.LineMid | Source/EngineName/Systems/DebugOverlay.cs:189-191 | each of the 12 lines joins two different corners and has the midpoint of the edge named by its loop counters |
| DebugOverlay.EdgesDistinct | Source/EngineName/Systems/DebugOverlay.cs:189-191 | no two of the 12 lines have the same pair of ends |
| DebugOverlay.EdgesCovered | Source/EngineName/Systems/DebugOverlay.cs:189-191 | every edge of the cube is one of the 12 lines |
| DebugOverlay.DbgStr | Source/EngineName/Systems/DebugOverlay.cs:120-122 | registering a callback appends it after every earlier one |
| DebugOverlay.Lines | Source/EngineName/Systems/DebugOverlay.cs:109-112 | one line per callback, at `x = 16`, each 24 pixels below the one before, with the callback's string |
| DebugOverlay.Draw | Source/EngineName/Systems/DebugOverlay.cs:104-112 | string `i` is drawn at `(16, 16 + 24 i)` and is callback `i`'s string |
| DebugOverlay.DrawAfterDbgStr | Source/EngineName/Systems/DebugOverlay.cs:98-122 | registering a string adds one line below all the others and leaves the existing lines unchanged |

## Left out

- GPU work is not modelled: vertex and index buffers, `Model`, `ModelMesh` and bone construction, effects, bounding spheres, and the drawing calls of the overlay, menu and renderers. These are thin calls into MonoGame, whose code is not part of this model.
- Normal generation (`CalculateNormals`, the water normals) is not modelled; it is floating-point cross products and normalisation.
- The transform `Frame` matrix recompute in the physics step is not modelled; it is matrix arithmetic.
- `GenericUtil.BuildBoundingBoxForVertex` is modelled only with the identity transform, the only one the engine passes.
- Body restitution is not modelled; the solver never reads it.
- Vector lengths use a caller-supplied `norm` function that satisfies the defining equation of a square root.
- Physics.Resolve: the IEEE outcomes of a zero centre distance, or of inverse masses whose `MassOf` values sum to zero (both at the 0.0001 cut-off, or finite masses of opposite sign), are reported as `Degenerate` rather than NaN or infinity.
- All arithmetic is over `real`; `float.MaxValue` and `float.MinValue` are named sentinels.
- Input.Drive: `Math.Sin` and `Math.Cos` of the heading plus a quarter turn are a parameter (`Input.Trig`); the model does not know their values, only that every key uses the same two.
- Escape closing the game is not modelled.
- Keyboard state is an input set of keys.
- Content loading (fonts, heightmap images) is not modelled; loaded data arrives as values.
- The seeded `Random` of the water system is a parameter: `draws(i)` is the `i`-th value it returns.
- The `Game1` singleton is a boolean "an instance exists" input to the constructor.
- The overlay's `[Conditional("DEBUG")]` compilation switch is not modelled.
- The overlay's `Init`, `DrawAABBs` and the formatting of its default strings are not modelled.
- `Menu.Draw` models the selection, debounce and event logic only, not `base.Draw` or the screen clear; `Menu.DrawRegistered` writes the moved highlight back into the registry.
- The `Rendering2DSystem` internals are not modelled.
- Dictionary iteration order after a removal is modelled as the insertion order of the remaining keys. .NET may reuse a freed slot for a later insertion; the model does not.
- The frame counter's interval at zero updates per second is modelled as infinite: it never publishes, where the source's division yields infinity.
- Ground.Build, Ground.IndexList: the index loop counts with a `short`; when more than 32767 indices are needed the counter wraps and the list grows until allocation throws OutOfMemoryException. The model returns `OutOfMemory` at once and does not model how long the growth runs or how much memory it takes first.
- Registry.AddEntity, Registry.Run, Registry.IdsNeverReused, EcsEntity.New, EcsEntity.NewMany, EcsEntity.IdsStartAtTwoAndAreDistinct: the id counters are unbounded integers. The source's 32-bit `int` counters (Scene.cs:72,117; EcsEntity.cs:37) wrap after 2^31 increments and would then hand out negative and repeated ids; the model and its freshness lemmas do not represent that.
- The scene's commented-out pending-operation queue and the commented-out `WaterSystem.Update` are not modelled.
- Audio, logging, debug utilities, the entry point and the game's scene fixtures are not modelled.
- Logic.Update: its own contract states only that the table keeps its keys and order; the firing rule, per-component independence and the fire arguments are stated by `Logic.UpdateFromEntries`, `Logic.UpdateFromFiredOnce` and `Logic.UpdateFromFireArgs`.
- Input.SteerAll: its own contract states only validity and the unchanged entity list; the per-entity effect is stated by `Input.UpdateSteers` and the `Input.SteerAll*` lemmas.
- Input.Update: likewise; `Input.UpdateSteers` states what it does to bodies and cameras and that nothing else changes.
- Particles.Draw: its own contract states that the queue is emptied, one id is used per pending spawn and the registry stays valid; ageing, removal and integration are stated by `Particles.DrawAges` and the `Particles.AgeFrom*` lemmas, and that nothing else changes by `Particles.DrawKeepsOthers`.
- Physics.Update: its own contract states validity and that only the body and transform tables change; the per-body effects and the pair list are stated by `Physics.UpdateTables` and `Physics.UpdatePairs`.
- MapLoad.LoadHeightmap: uses the corrected height scan and the corrected ground, so it loads maps the code as written rejects (deeper than wide) and gives them true extremes; the code as written is `MapLoad.LoadHeightmapAsWritten`, compared with it by `MapLoad.AsWrittenLoadDiffers`.
- MapLoad.LoadHeightmapSteps, MapLoad.LoadHeightmapOk, MapLoad.LoadHeightmapChunks: stated for images at least 20 texels each way; smaller images fail, by `MapLoad.LoadHeightmapErrors` and `MapLoad.LoadHeightmapTooSmall`.
- Scene.ToLower: folds the ASCII letters `A` to `Z` only; the culture-aware `string.ToLower` of .NET also folds other letters.
- Particles.Age: the particle's force `F` is a constant of the component; the code calls the `CParticle.F` function every frame, whose result the model does not vary over time.

## Findings

| source | as written | input that shows it | evidently intended | confidence | as-written member | corrected member |
|---|---|---|---|---|---|---|
| Source/EngineName/Systems/MapSystem.cs:118-129 | `minHeight` and `maxHeight` stay at the float sentinels, so every texel passes both tests and `LowestPoint` and `HeighestPoint` both become the last texel's red value | a 2-by-1 image with red values 0 and 255 gets `LowestPoint` 255 | the least and greatest red values of the image | not executed | Map.AsWrittenMissesMinimum | Map.HeightExtremes |
| Source/EngineName/Systems/MapSystem.cs:310 | the right face of the ground is placed on column `depth - 1` | a 3-by-2 map gets its right face on column 1, inside the map; a map deeper than it is wide reads past its last column | the right face on the last column, `width - 1` | not executed | Ground.AsWrittenRightFaceInside | Ground.GroundOnBorder |
