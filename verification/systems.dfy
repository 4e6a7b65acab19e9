/** Systems and their lifecycle hooks (`Core/EcsSystem.cs`) and the
    `AsyncMultiSystem` that forwards each hook to a fixed array of child
    systems (`Systems/AsyncMultiSystem.cs`).

    What a concrete system does inside a hook is modelled by the system's
    own module; here a hook invocation is recorded as a `Call` so that the
    order and multiplicity of invocations can be stated. */
module Systems {
  import opened Wrappers

  datatype Hook = InitHook | CleanupHook | UpdateHook(t: real, dt: real) | DrawHook(t: real, dt: real)

  /** One invocation of `hook` on the leaf system `system`. */
  datatype Call = Call(system: int, hook: Hook)

  /** A system instance: a plain system, or an `AsyncMultiSystem` with its
      private copy of the child array. `scene` is the `Scene` property. */
  datatype Sys =
    | Leaf(id: int, scene: Option<int>)
    | Multi(id: int, scene: Option<int>, children: seq<Sys>)

  /** `new AsyncMultiSystem(systems)`: the children are a copy of the
      caller's array taken at construction time; the system belongs to no
      scene yet. */
  function NewMulti(id: int, systems: seq<Sys>): (m: Sys)
    ensures m.Multi? && m.id == id && m.scene == None
    ensures m.children == systems
  {
    Multi(id, None, systems)
  }

  /** The `Scene` setter that `Scene.AddSystem` uses. */
  function BindScene(s: Sys, scene: int): (r: Sys)
    ensures r.scene == Some(scene) && r.id == s.id
    ensures r.Multi? <==> s.Multi?
    ensures r.Multi? ==> r.children == s.children
  {
    match s
    case Leaf(id, _) => Leaf(id, Some(scene))
    case Multi(id, _, cs) => Multi(id, Some(scene), cs)
  }

  /** The plain systems reached by running `s`, in dispatch order. */
  function Leaves(s: Sys): seq<Sys>
    decreases s, 1
  {
    match s
    case Leaf(_, _) => [s]
    case Multi(_, _, cs) => LeavesAll(cs)
  }

  function LeavesAll(ss: seq<Sys>): seq<Sys>
    decreases ss, 0
  {
    if |ss| == 0 then [] else Leaves(ss[0]) + LeavesAll(ss[1..])
  }

  /** Invoking `hook` on `s`: a plain system records one call; an
      `AsyncMultiSystem` forwards the same hook (same `t` and `dt`) to each
      child in array order, one after the other. */
  function Dispatch(s: Sys, hook: Hook): seq<Call>
    decreases s, 1
  {
    match s
    case Leaf(id, _) => [Call(id, hook)]
    case Multi(_, _, cs) => DispatchAll(cs, hook)
  }

  /** `foreach (var system in systems) system.<hook>(...)`. */
  function DispatchAll(ss: seq<Sys>, hook: Hook): seq<Call>
    decreases ss, 0
  {
    if |ss| == 0 then [] else Dispatch(ss[0], hook) + DispatchAll(ss[1..], hook)
  }

  /** The calls a hook produces are exactly one per reachable plain
      system, in order, each receiving the hook unchanged. */
  lemma {:induction false} DispatchVisitsLeaves(s: Sys, hook: Hook)
    ensures |Dispatch(s, hook)| == |Leaves(s)|
    ensures forall k | 0 <= k < |Leaves(s)| :: Dispatch(s, hook)[k] == Call(Leaves(s)[k].id, hook)
    decreases s, 1
  {
    match s
    case Leaf(_, _) =>
    case Multi(_, _, cs) => DispatchAllVisitsLeaves(cs, hook);
  }

  lemma {:induction false} DispatchAllVisitsLeaves(ss: seq<Sys>, hook: Hook)
    ensures |DispatchAll(ss, hook)| == |LeavesAll(ss)|
    ensures forall k | 0 <= k < |LeavesAll(ss)| ::
              DispatchAll(ss, hook)[k] == Call(LeavesAll(ss)[k].id, hook)
    decreases ss, 0
  {
    if |ss| > 0 {
      DispatchVisitsLeaves(ss[0], hook);
      DispatchAllVisitsLeaves(ss[1..], hook);
      var a: seq<Call>, b: seq<Call> := Dispatch(ss[0], hook), DispatchAll(ss[1..], hook);
      var la: seq<Sys>, lb: seq<Sys> := Leaves(ss[0]), LeavesAll(ss[1..]);
      forall k | 0 <= k < |la + lb| ensures (a + b)[k] == Call((la + lb)[k].id, hook) {
        if k < |la| {
          assert (a + b)[k] == a[k] && (la + lb)[k] == la[k];
        } else {
          assert (a + b)[k] == b[k - |a|] && (la + lb)[k] == lb[k - |la|];
        }
      }
    }
  }

  /** Hooks of a list of systems concatenate: adding a system at the end
      adds its calls at the end and leaves the earlier calls alone. */
  lemma {:induction false} DispatchAllAppend(ss: seq<Sys>, s: Sys, hook: Hook)
    ensures DispatchAll(ss + [s], hook) == DispatchAll(ss, hook) + Dispatch(s, hook)
    decreases |ss|
  {
    if |ss| == 0 {
      assert ss + [s] == [s];
    } else {
      assert (ss + [s])[1..] == ss[1..] + [s];
      DispatchAllAppend(ss[1..], s, hook);
    }
  }

  /** An `AsyncMultiSystem` of plain systems calls every child exactly once
      per hook, in the order of the array it was built from. */
  lemma MultiForwardsInOrder(id: int, systems: seq<Sys>, hook: Hook)
    requires forall k | 0 <= k < |systems| :: systems[k].Leaf?
    ensures |Dispatch(NewMulti(id, systems), hook)| == |systems|
    ensures forall k | 0 <= k < |systems| ::
              Dispatch(NewMulti(id, systems), hook)[k] == Call(systems[k].id, hook)
  {
    LeavesAllOfLeaves(systems);
    DispatchAllVisitsLeaves(systems, hook);
  }

  lemma {:induction false} LeavesAllOfLeaves(ss: seq<Sys>)
    requires forall k | 0 <= k < |ss| :: ss[k].Leaf?
    ensures LeavesAll(ss) == ss
  {
    if |ss| > 0 {
      LeavesAllOfLeaves(ss[1..]);
      assert ss == [ss[0]] + ss[1..];
    }
  }
}
