/** An `EcsEntity` (`Core/EcsEntity.cs`): an id drawn from a counter shared
    by all entities, and a dictionary from a component's runtime type to the
    component. Whether the owning scene was notified of a change is returned
    alongside the new entity. */
module EcsEntity {
  import opened Wrappers
  import opened Components

  /** `scene` is `Some(id)` when the entity belongs to the scene `id`. */
  datatype Entity = Entity(id: int, comps: map<TypeTag, Component>, scene: Option<int>)

  /** The value of the shared id counter before any entity exists. */
  const FirstCounter: int := 1

  /** `new EcsEntity()` with the shared counter at `next`: the counter is
      incremented first and its new value becomes the id. Returns the
      entity and the new counter. */
  function New(next: int): (r: (Entity, int))
    ensures r.0.id == next + 1 && r.1 == r.0.id
    ensures r.0.comps == map[] && r.0.scene == None
  {
    (Entity(next + 1, map[], None), next + 1)
  }

  /** Creates `n` entities in a row, returning their ids and the counter. */
  function NewMany(next: int, n: nat): (r: (seq<int>, int))
    ensures |r.0| == n && r.1 == next + n
    ensures forall i | 0 <= i < n :: r.0[i] == next + 1 + i
    decreases n
  {
    if n == 0 then ([], next)
    else
      var (e, next1) := New(next);
      var (rest, last) := NewMany(next1, n - 1);
      ([e.id] + rest, last)
  }

  /** The first entity of a run gets id 2 and every later one the previous
      id plus one, so no two entities share an id. */
  lemma IdsStartAtTwoAndAreDistinct(n: nat)
    ensures n > 0 ==> NewMany(FirstCounter, n).0[0] == 2
    ensures forall i, j | 0 <= i < j < n :: NewMany(FirstCounter, n).0[i] < NewMany(FirstCounter, n).0[j]
  {
  }

  /** `AddComponent(component)`: stores it under its runtime type; throws
      like `Dictionary.Add` if that type is present. The result's flag is
      true iff the scene was notified. */
  function AddComponent(e: Entity, c: Component): (r: Result<(Entity, bool)>)
    ensures r.Ok? <==> RuntimeTag(c) !in e.comps
    ensures r.Err? ==> r.error == DuplicateKey
    ensures r.Ok? ==> r.value.0.comps == e.comps[RuntimeTag(c) := c]
    ensures r.Ok? ==> r.value.0.id == e.id && r.value.0.scene == e.scene
    ensures r.Ok? ==> (r.value.1 <==> e.scene.Some?)
  {
    var tag := RuntimeTag(c);
    if tag in e.comps then Err(DuplicateKey)
    else Ok((e.(comps := e.comps[tag := c]), e.scene.Some?))
  }

  /** `GetComponent(type)`: the component stored under exactly `tag`. */
  function GetComponent(e: Entity, tag: TypeTag): (r: Result<Component>)
    ensures r.Ok? <==> tag in e.comps
    ensures r.Ok? ==> r.value == e.comps[tag]
    ensures r.Err? ==> r.error == MissingKey
  {
    if tag in e.comps then Ok(e.comps[tag]) else Err(MissingKey)
  }

  /** `HasComponent(type)`. */
  function HasComponent(e: Entity, tag: TypeTag): (r: bool)
    ensures r <==> GetComponent(e, tag).Ok?
  {
    tag in e.comps
  }

  /** `RemoveComponent(type)`: returns the entity, whether something was
      removed, and whether the scene was notified. */
  function RemoveComponent(e: Entity, tag: TypeTag): (r: (Entity, bool, bool))
    ensures r.1 <==> HasComponent(e, tag)
    ensures !HasComponent(r.0, tag)
    ensures forall t | t != tag :: GetComponent(r.0, t) == GetComponent(e, t)
    ensures r.0.id == e.id && r.0.scene == e.scene
    ensures r.2 <==> r.1 && e.scene.Some?
  {
    var removed := tag in e.comps;
    (e.(comps := e.comps - {tag}), removed, removed && e.scene.Some?)
  }

  /** Adding a component makes `HasComponent` of its runtime type true and
      `GetComponent` return it; the other types are not affected. */
  lemma AddThenGet(e: Entity, c: Component, tag: TypeTag)
    requires AddComponent(e, c).Ok?
    ensures var e1 := AddComponent(e, c).value.0;
      && HasComponent(e1, RuntimeTag(c))
      && GetComponent(e1, RuntimeTag(c)) == Ok(c)
      && (tag != RuntimeTag(c) ==> GetComponent(e1, tag) == GetComponent(e, tag))
  {
  }

  /** Removing what was just added gives back the entity as it was; a
      second removal finds nothing and notifies nobody. */
  lemma AddThenRemove(e: Entity, c: Component)
    requires AddComponent(e, c).Ok?
    ensures RemoveComponent(AddComponent(e, c).value.0, RuntimeTag(c)).0 == e
    ensures RemoveComponent(AddComponent(e, c).value.0, RuntimeTag(c)).1
    ensures var e1 := RemoveComponent(AddComponent(e, c).value.0, RuntimeTag(c)).0;
      !RemoveComponent(e1, RuntimeTag(c)).1 && !RemoveComponent(e1, RuntimeTag(c)).2
  {
    var e1 := RemoveComponent(AddComponent(e, c).value.0, RuntimeTag(c)).0;
    assert e1.comps == e.comps;
  }

  /** Only one component per runtime type: a second component of the same
      class is refused even if its value differs. */
  lemma OnePerType(e: Entity, c: Component, d: Component)
    requires AddComponent(e, c).Ok?
    requires RuntimeTag(d) == RuntimeTag(c)
    ensures AddComponent(AddComponent(e, c).value.0, d) == Err(DuplicateKey)
  {
  }
}
