/** The entity/component registry a `Scene` owns (`Scene.cs`): one
    insertion-ordered table per component type, the list of live entity
    ids, and the id counter. */
module Registry {
  import opened Wrappers
  import opened Components
  import S = Store

  datatype Registry = Registry(stores: map<TypeTag, S.Store>, entities: seq<int>, counter: int)

  /** A scene before `Init`: no type maps, no entities, counter at -1. */
  const Fresh: Registry := Registry(map[], [], -1)

  /** Every table is well formed, live ids are distinct, and every id ever
      handed out is at most the counter. */
  ghost predicate Valid(r: Registry) {
    && (forall t | t in r.stores :: S.Valid(r.stores[t]))
    && S.Distinct(r.entities)
    && (forall id | id in r.entities :: id <= r.counter)
  }

  lemma FreshValid()
    ensures Valid(Fresh)
  {
  }

  /** `NumEntities`. */
  function NumEntities(r: Registry): nat { |r.entities| }

  /** True when `tag` has a table and that table has an entry for `id`. */
  predicate Stored(r: Registry, tag: TypeTag, id: int) {
    tag in r.stores && id in r.stores[tag].entries
  }

  /** `AddEntity`: pre-increments the counter and appends the new id. */
  function AddEntity(r: Registry): (res: (Registry, int))
    requires Valid(r)
    ensures Valid(res.0)
    ensures res.1 == r.counter + 1 && res.0.counter == res.1
    ensures res.1 !in r.entities
    ensures res.0.entities == r.entities + [res.1]
    ensures NumEntities(res.0) == NumEntities(r) + 1
    ensures res.0.stores == r.stores
  {
    var id := r.counter + 1;
    var r' := Registry(r.stores, r.entities + [id], id);
    assert forall i | 0 <= i < |r.entities| :: r.entities[i] != id by {
      forall i | 0 <= i < |r.entities| ensures r.entities[i] != id {
        assert r.entities[i] in r.entities;
      }
    }
    S.DistinctCons(id, []);
    (r', id)
  }

  /** `List<int>.Remove`: drops the first occurrence, if any. */
  function RemoveFirst(s: seq<int>, x: int): (r: seq<int>)
    ensures x !in s ==> r == s
    ensures x in s ==> |r| == |s| - 1
    ensures forall y :: y in r ==> y in s
    ensures forall y :: y in s && y != x ==> y in r
  {
    if |s| == 0 then []
    else if s[0] == x then s[1..]
    else [s[0]] + RemoveFirst(s[1..], x)
  }

  lemma {:induction false} RemoveFirstDistinct(s: seq<int>, x: int)
    requires S.Distinct(s)
    ensures S.Distinct(RemoveFirst(s, x))
    ensures x !in RemoveFirst(s, x)
  {
    if |s| > 0 {
      S.DistinctTail(s);
      if s[0] != x {
        RemoveFirstDistinct(s[1..], x);
        S.DistinctCons(s[0], RemoveFirst(s[1..], x));
      }
    }
  }

  /** Every type table with `id` removed. */
  function PurgeStores(stores: map<TypeTag, S.Store>, id: int): (res: map<TypeTag, S.Store>)
    requires forall t | t in stores :: S.Valid(stores[t])
    ensures res.Keys == stores.Keys
    ensures forall t | t in res :: S.Valid(res[t]) && res[t] == S.Remove(stores[t], id)
  {
    map t | t in stores :: S.Remove(stores[t], id)
  }

  /** `RemoveEntity(eid)`: deletes `eid` from every registered table and
      from the entity list. An absent id changes nothing. */
  function RemoveEntity(r: Registry, eid: int): (res: Registry)
    requires Valid(r)
    ensures Valid(res)
    ensures res.counter == r.counter
    ensures res.stores.Keys == r.stores.Keys
    ensures eid !in res.entities
    ensures forall t | t in res.stores :: eid !in res.stores[t].entries
    ensures forall t, k | t in r.stores && k != eid ::
              (k in res.stores[t].entries <==> k in r.stores[t].entries)
    ensures forall t, k | t in r.stores && k != eid && k in r.stores[t].entries ::
              res.stores[t].entries[k] == r.stores[t].entries[k]
    ensures forall k :: k != eid ==> (k in res.entities <==> k in r.entities)
    ensures NumEntities(res) == if eid in r.entities then NumEntities(r) - 1 else NumEntities(r)
  {
    RemoveFirstDistinct(r.entities, eid);
    Registry(PurgeStores(r.stores, eid), RemoveFirst(r.entities, eid), r.counter)
  }

  /** `AddComponent(id, component, type)`: `Components[type].Add(id, c)`.
      Fails when the type has no table or already has an entry for `id`.
      The id is not checked against the live entity list. */
  function AddComponent(r: Registry, id: int, c: Component, tag: TypeTag): (res: Result<Registry>)
    requires Valid(r)
    ensures res.Ok? <==> tag in r.stores && id !in r.stores[tag].entries
    ensures tag !in r.stores ==> res == Err(MissingKey)
    ensures Stored(r, tag, id) ==> res == Err(DuplicateKey)
    ensures res.Ok? ==> Valid(res.value)
    ensures res.Ok? ==> GetComponentFromEntity(res.value, tag, id) == Ok(c)
    ensures res.Ok? ==> EntityHasComponent(res.value, tag, id) == Ok(true)
    ensures res.Ok? ==> res.value.entities == r.entities && res.value.counter == r.counter
    ensures res.Ok? ==> res.value.stores.Keys == r.stores.Keys
    ensures res.Ok? ==> forall t, k | (t, k) != (tag, id) ::
              Stored(res.value, t, k) == Stored(r, t, k) &&
              GetComponentFromEntity(res.value, t, k) == GetComponentFromEntity(r, t, k)
  {
    if tag !in r.stores then Err(MissingKey)
    else
      match S.Add(r.stores[tag], id, c)
      case Err(e) => Err(e)
      case Ok(st) => Ok(Registry(r.stores[tag := st], r.entities, r.counter))
  }

  /** `GetComponents<T>()`: the table of `tag`, or a new empty one (which
      is not registered) when the type has no table. */
  function GetComponents(r: Registry, tag: TypeTag): (st: S.Store)
    requires Valid(r)
    ensures S.Valid(st)
    ensures tag !in r.stores ==> st == S.Empty
    ensures forall k :: k in st.entries <==> Stored(r, tag, k)
  {
    if tag in r.stores then r.stores[tag] else S.Empty
  }

  /** `GetComponentFromEntity<T>(id)`: `Components[typeof(T)][id]`; both
      indexers throw on a missing key. */
  function GetComponentFromEntity(r: Registry, tag: TypeTag, id: int): (res: Result<Component>)
    ensures res.Ok? <==> Stored(r, tag, id)
    ensures res.Err? ==> res.error == MissingKey
    ensures res.Ok? ==> res.value == r.stores[tag].entries[id]
  {
    if tag !in r.stores then Err(MissingKey)
    else if id !in r.stores[tag].entries then Err(MissingKey)
    else Ok(r.stores[tag].entries[id])
  }

  /** `EntityHasComponent<T>(id)`: throws when the type has no table. */
  function EntityHasComponent(r: Registry, tag: TypeTag, id: int): (res: Result<bool>)
    ensures res.Err? <==> tag !in r.stores
    ensures res.Err? ==> res.error == MissingKey
    ensures res.Ok? ==> (res.value <==> Stored(r, tag, id))
  {
    if tag !in r.stores then Err(MissingKey)
    else Ok(id in r.stores[tag].entries)
  }

  /** Overwrites the component an entity already has under `tag`, the
      effect of a system mutating the stored object in place. */
  function SetComponent(r: Registry, tag: TypeTag, id: int, c: Component): (res: Registry)
    requires Valid(r) && Stored(r, tag, id)
    ensures Valid(res)
    ensures res.entities == r.entities && res.counter == r.counter
    ensures res.stores.Keys == r.stores.Keys
    ensures res.stores[tag].order == r.stores[tag].order
    ensures forall t | t in r.stores && t != tag :: res.stores[t] == r.stores[t]
    ensures GetComponentFromEntity(res, tag, id) == Ok(c)
    ensures forall t, k | (t, k) != (tag, id) ::
              Stored(res, t, k) == Stored(r, t, k) &&
              GetComponentFromEntity(res, t, k) == GetComponentFromEntity(r, t, k)
  {
    Registry(r.stores[tag := S.Set(r.stores[tag], id, c)], r.entities, r.counter)
  }

  /** A registry operation a scene-setup script or a system may issue. */
  datatype Op = AddEntityOp | RemoveEntityOp(id: int) | AddComponentOp(id: int, c: Component, tag: TypeTag)

  /** Applies `ops` in order and collects the ids `AddEntity` hands out. A
      failing `AddComponent` throws, which ends the run. */
  function Run(r: Registry, ops: seq<Op>): (res: (Registry, seq<int>))
    requires Valid(r)
    ensures Valid(res.0)
    ensures res.0.counter >= r.counter
    ensures |res.1| <= |ops|
    ensures forall i | 0 <= i < |res.1| :: r.counter < res.1[i] <= res.0.counter
    decreases |ops|
  {
    if |ops| == 0 then (r, [])
    else
      match ops[0]
      case AddEntityOp =>
        var (r1, id) := AddEntity(r);
        var (r2, ids) := Run(r1, ops[1..]);
        (r2, [id] + ids)
      case RemoveEntityOp(eid) => Run(RemoveEntity(r, eid), ops[1..])
      case AddComponentOp(eid, c, tag) =>
        match AddComponent(r, eid, c, tag)
        case Err(_) => (r, [])
        case Ok(r1) => Run(r1, ops[1..])
  }

  /** Strictly increasing. */
  predicate Increasing(s: seq<int>) {
    forall i, j | 0 <= i < j < |s| :: s[i] < s[j]
  }

  /** Ids are never reused: across any sequence of adds and removals the
      ids handed out strictly increase, and each is above every id that
      existed before the sequence started, removed ones included. */
  lemma {:induction false} IdsNeverReused(r: Registry, ops: seq<Op>)
    requires Valid(r)
    ensures Increasing(Run(r, ops).1)
    ensures forall i | 0 <= i < |Run(r, ops).1| :: Run(r, ops).1[i] !in r.entities
    decreases |ops|
  {
    var ids := Run(r, ops).1;
    if |ops| > 0 {
      match ops[0]
      case AddEntityOp =>
        var (r1, id) := AddEntity(r);
        IdsNeverReused(r1, ops[1..]);
        var rest := Run(r1, ops[1..]).1;
        assert ids == [id] + rest;
        forall i, j | 0 <= i < j < |ids| ensures ids[i] < ids[j] {
          assert ids[j] == rest[j - 1] && rest[j - 1] > r1.counter;
          if i > 0 {
            assert ids[i] == rest[i - 1];
            assert 0 <= i - 1 < j - 1 < |rest|;
            assert rest[i - 1] < rest[j - 1];
          } else {
            assert ids[i] == id == r1.counter;
          }
        }
      case RemoveEntityOp(eid) =>
        IdsNeverReused(RemoveEntity(r, eid), ops[1..]);
        assert ids == Run(RemoveEntity(r, eid), ops[1..]).1;
      case AddComponentOp(eid, c, tag) =>
        match AddComponent(r, eid, c, tag)
        case Err(_) =>
          assert ids == [];
        case Ok(r1) =>
          IdsNeverReused(r1, ops[1..]);
          assert ids == Run(r1, ops[1..]).1;
    }
    forall i | 0 <= i < |ids| ensures ids[i] !in r.entities {
      assert ids[i] > r.counter;
    }
  }

  /** The first id a fresh scene hands out is 0, the next one 1. */
  lemma FirstIds()
    ensures AddEntity(Fresh).1 == 0
    ensures AddEntity(AddEntity(Fresh).0).1 == 1
  {
    FreshValid();
  }

  /** `AddComponent` accepts an id that is not a live entity, so a type
      table can hold an id missing from `GetEntities()`. */
  lemma ComponentForUnknownEntity(c: Component)
    ensures var r := Registry(map[TBody := S.Empty], [], -1);
      && AddComponent(r, 7, c, TBody).Ok?
      && Stored(AddComponent(r, 7, c, TBody).value, TBody, 7)
      && 7 !in AddComponent(r, 7, c, TBody).value.entities
  {
    var r := Registry(map[TBody := S.Empty], [], -1);
    S.EmptyValid();
    assert Valid(r);
  }
}
