/** A `Scene` (`Scene.cs`): the component registry, the event bus and the
    ordered list of systems it schedules. Registry operations live in the
    `Registry` module; this module adds events, systems and the scene's own
    lifecycle. */
module Scene {
  import opened Wrappers
  import opened Components
  import opened Systems
  import R = Registry
  import S = Store

  /** What an event carries: `null`, or an integer such as a menu index. */
  datatype EventData = NoData | IntData(n: int)

  /** One run of the event callback `cb` with `data`. */
  datatype Invocation = Invocation(cb: int, data: EventData)

  /** A scene; `id` stands for its object identity (what a system's `Scene`
      property points to) and event callbacks are identified by integers. */
  datatype Scene = Scene(id: int, reg: R.Registry, events: map<string, seq<int>>, systems: seq<Sys>)

  /** A newly constructed scene, before `Init`. */
  function New(id: int): Scene { Scene(id, R.Fresh, map[], []) }

  ghost predicate Valid(sc: Scene) { R.Valid(sc.reg) }

  /** `char.ToLower` on ASCII letters; other characters are unchanged. */
  function LowerChar(c: char): (r: char)
    ensures 'A' <= c <= 'Z' ==> r as int == c as int + 32
    ensures !('A' <= c <= 'Z') ==> r == c
  {
    if 'A' <= c <= 'Z' then (c as int + 32) as char else c
  }

  /** `string.ToLower`. */
  function ToLower(s: string): (r: string)
    ensures |r| == |s|
    ensures forall i | 0 <= i < |s| :: r[i] == LowerChar(s[i])
    ensures forall i | 0 <= i < |r| :: !('A' <= r[i] <= 'Z')
  {
    if |s| == 0 then [] else [LowerChar(s[0])] + ToLower(s[1..])
  }

  /** `Raise(name, data)`: every callback registered under the lower-cased
      name, once each, in registration order, all with the same data. */
  function Raise(sc: Scene, name: string, data: EventData): (r: seq<Invocation>)
    ensures ToLower(name) !in sc.events ==> r == []
    ensures ToLower(name) in sc.events ==>
              |r| == |sc.events[ToLower(name)]| &&
              forall i | 0 <= i < |r| :: r[i] == Invocation(sc.events[ToLower(name)][i], data)
  {
    var key := ToLower(name);
    if key !in sc.events then []
    else seq(|sc.events[key]|, i requires 0 <= i < |sc.events[key]| => Invocation(sc.events[key][i], data))
  }

  /** `OnEvent(name, cb)`: appends `cb` to the list of the lower-cased name. */
  function OnEvent(sc: Scene, name: string, cb: int): (r: Scene)
    ensures ToLower(name) in r.events
    ensures r.reg == sc.reg && r.systems == sc.systems && r.id == sc.id
    ensures forall n | n != ToLower(name) :: (n in r.events <==> n in sc.events)
    ensures forall n | n != ToLower(name) && n in sc.events :: r.events[n] == sc.events[n]
  {
    var key := ToLower(name);
    var cbs := if key in sc.events then sc.events[key] else [];
    sc.(events := sc.events[key := cbs + [cb]])
  }

  /** Names differing only in letter case reach the same callbacks. */
  lemma RaiseIgnoresCase(sc: Scene, a: string, b: string, data: EventData)
    requires ToLower(a) == ToLower(b)
    ensures Raise(sc, a, data) == Raise(sc, b, data)
  {
  }

  /** Registering a callback makes the next `Raise` of that name run it
      once more, after the earlier ones; other names are not affected. */
  lemma OnEventThenRaise(sc: Scene, name: string, cb: int, other: string, data: EventData)
    ensures Raise(OnEvent(sc, name, cb), name, data) == Raise(sc, name, data) + [Invocation(cb, data)]
    ensures ToLower(other) != ToLower(name) ==>
              Raise(OnEvent(sc, name, cb), other, data) == Raise(sc, other, data)
  {
    var key := ToLower(name);
    var before := Raise(sc, name, data);
    var after := Raise(OnEvent(sc, name, cb), name, data);
    assert |after| == |before| + 1;
    forall i | 0 <= i < |after| ensures after[i] == (before + [Invocation(cb, data)])[i] {
      if i < |before| {
        assert key in sc.events;
      }
    }
  }

  /** `AddSystem(system)`: appends it and sets its `Scene` to this scene. */
  function AddSystem(sc: Scene, s: Sys): (r: Scene)
    ensures r.systems == sc.systems + [BindScene(s, sc.id)]
    ensures r.reg == sc.reg && r.events == sc.events && r.id == sc.id
  {
    sc.(systems := sc.systems + [BindScene(s, sc.id)])
  }

  /** `AddSystems(systems)`: `AddSystem` on each, in argument order. */
  function AddSystems(sc: Scene, ss: seq<Sys>): (r: Scene)
    ensures |r.systems| == |sc.systems| + |ss|
    ensures r.systems[..|sc.systems|] == sc.systems
    ensures forall i | 0 <= i < |ss| :: r.systems[|sc.systems| + i] == BindScene(ss[i], sc.id)
    ensures r.reg == sc.reg && r.events == sc.events && r.id == sc.id
    decreases |ss|
  {
    if |ss| == 0 then sc
    else
      var r := AddSystems(AddSystem(sc, ss[0]), ss[1..]);
      assert forall i | 1 <= i < |ss| :: ss[1..][i - 1] == ss[i];
      r
  }

  /** `Update(t, dt)`: each system's `Update(t, dt)` once, in the order the
      systems were added (the pending-entity queue it first drains is
      empty in this version of the engine). */
  function Update(sc: Scene, t: real, dt: real): seq<Call> {
    DispatchAll(sc.systems, UpdateHook(t, dt))
  }

  /** `Draw(t, dt)`: each system's `Draw(t, dt)` once, in order. */
  function Draw(sc: Scene, t: real, dt: real): seq<Call> {
    DispatchAll(sc.systems, DrawHook(t, dt))
  }

  /** A system added last runs last: `Update` and `Draw` of the extended
      scene are those of the old one followed by the new system's calls. */
  lemma AddSystemRunsLast(sc: Scene, s: Sys, t: real, dt: real)
    ensures Update(AddSystem(sc, s), t, dt) == Update(sc, t, dt) + Dispatch(BindScene(s, sc.id), UpdateHook(t, dt))
    ensures Draw(AddSystem(sc, s), t, dt) == Draw(sc, t, dt) + Dispatch(BindScene(s, sc.id), DrawHook(t, dt))
  {
    DispatchAllAppend(sc.systems, BindScene(s, sc.id), UpdateHook(t, dt));
    DispatchAllAppend(sc.systems, BindScene(s, sc.id), DrawHook(t, dt));
  }

  /** With only plain systems, `Update` calls each of them exactly once,
      in the order they were added. */
  lemma UpdateCallsEachSystemOnce(sc: Scene, t: real, dt: real)
    requires forall k | 0 <= k < |sc.systems| :: sc.systems[k].Leaf?
    ensures |Update(sc, t, dt)| == |sc.systems|
    ensures forall k | 0 <= k < |sc.systems| :: Update(sc, t, dt)[k] == Call(sc.systems[k].id, UpdateHook(t, dt))
  {
    LeavesAllOfLeaves(sc.systems);
    DispatchAllVisitsLeaves(sc.systems, UpdateHook(t, dt));
  }

  /** Registers an empty type map for each of `tags`, failing like
      `Dictionary.Add` when one of them is already present (the partly
      updated registry is then discarded with the exception). */
  function RegisterTypes(stores: map<TypeTag, S.Store>, tags: set<TypeTag>): (r: Result<map<TypeTag, S.Store>>)
    ensures r.Ok? <==> forall t | t in tags :: t !in stores
    ensures r.Err? ==> r.error == DuplicateKey
    ensures r.Ok? ==> forall t :: t in r.value <==> t in stores || t in tags
    ensures r.Ok? ==> forall t | t in stores :: r.value[t] == stores[t]
    ensures r.Ok? ==> forall t | t in tags :: r.value[t] == S.Empty
  {
    if exists t | t in tags :: t in stores then Err(DuplicateKey)
    else Ok(map t | t in stores.Keys + tags :: if t in stores then stores[t] else S.Empty)
  }

  /** The eight component types a scene registers, as a set. */
  function SceneTagSet(): (r: set<TypeTag>)
    ensures forall t :: t in r <==> t in SceneTags
  {
    set t | t in SceneTags
  }

  /** `Init()`: registers the eight component type maps (a second `Init`
      fails on the duplicate key), in a DEBUG build adds an
      `FpsCounterSystem` (identified by `fpsId`), then calls `Init` on
      every system in order. */
  function Init(sc: Scene, debug: bool, fpsId: int): (r: Result<(Scene, seq<Call>)>)
    ensures r.Ok? <==> forall t | t in SceneTags :: t !in sc.reg.stores
    ensures r.Err? ==> r.error == DuplicateKey
    ensures r.Ok? ==> forall t :: t in r.value.0.reg.stores <==> t in sc.reg.stores || t in SceneTags
    ensures r.Ok? ==> forall t | t in SceneTags :: r.value.0.reg.stores[t] == S.Empty
    ensures r.Ok? ==> r.value.0.reg.entities == sc.reg.entities
    ensures r.Ok? ==> r.value.0.systems == (if debug then sc.systems + [Leaf(fpsId, Some(sc.id))] else sc.systems)
    ensures r.Ok? ==> r.value.1 == DispatchAll(r.value.0.systems, InitHook)
  {
    var registered := RegisterTypes(sc.reg.stores, SceneTagSet());
    if registered.Err? then Err(registered.error)
    else
      var sc1 := sc.(reg := sc.reg.(stores := registered.value));
      var sc2 := if debug then AddSystem(sc1, Leaf(fpsId, None)) else sc1;
      Ok((sc2, DispatchAll(sc2.systems, InitHook)))
  }

  /** `Init` keeps the registry invariant: the new maps are empty. */
  lemma InitKeepsValid(sc: Scene, debug: bool, fpsId: int)
    requires Valid(sc)
    requires Init(sc, debug, fpsId).Ok?
    ensures Valid(Init(sc, debug, fpsId).value.0)
  {
    S.EmptyValid();
  }

  /** A fresh scene's `Init` succeeds and registers exactly the eight
      scene types, each with an empty map, and no entity. */
  lemma InitFreshRegistersEight(id: int, debug: bool, fpsId: int)
    ensures Init(New(id), debug, fpsId).Ok?
    ensures var sc := Init(New(id), debug, fpsId).value.0;
      && sc.reg.stores.Keys == SceneTagSet()
      && (forall t | t in sc.reg.stores :: sc.reg.stores[t] == S.Empty)
      && sc.reg.entities == []
  {
    R.FreshValid();
  }

  /** `SceneTags` lists eight distinct types. */
  lemma SceneTagSetSize()
    ensures |SceneTagSet()| == 8
  {
    var s := SceneTagSet();
    assert s == {TTransform, TInput, T3DRenderable, T2DRenderable, TCamera, TBody, TParticle, TLogic};
  }

  /** A second `Init` of the same scene throws on the first type map. */
  lemma InitTwiceFails(sc: Scene, debug: bool, fpsId: int)
    requires Init(sc, debug, fpsId).Ok?
    ensures Init(Init(sc, debug, fpsId).value.0, debug, fpsId) == Err(DuplicateKey)
  {
    var sc1 := Init(sc, debug, fpsId).value.0;
    assert TTransform in SceneTags;
  }

  /** `Cleanup()`: as written it calls `Init` (not `Cleanup`) on every
      system, in order, and then empties the system list. */
  function Cleanup(sc: Scene): (r: (Scene, seq<Call>))
    ensures r.0.systems == []
    ensures r.0.reg == sc.reg && r.0.events == sc.events && r.0.id == sc.id
    ensures r.1 == DispatchAll(sc.systems, InitHook)
    ensures forall i | 0 <= i < |r.1| :: r.1[i].hook == InitHook
  {
    DispatchAllHook(sc.systems, InitHook);
    (sc.(systems := []), DispatchAll(sc.systems, InitHook))
  }

  lemma DispatchAllHook(ss: seq<Sys>, hook: Hook)
    ensures forall i | 0 <= i < |DispatchAll(ss, hook)| :: DispatchAll(ss, hook)[i].hook == hook
  {
    DispatchAllVisitsLeaves(ss, hook);
  }
}
