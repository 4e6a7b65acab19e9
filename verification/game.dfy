/** The scene stack of `Game1` (`Game1.cs`). The stack is a sequence whose
    last element is the top; the singleton check of the constructor is a
    flag saying whether an instance already exists. */
module Game {
  import opened Wrappers
  import opened Systems
  import Sc = Scene

  datatype Game = Game(scenes: seq<Sc.Scene>)

  /** The `Scene` property: the top of the stack, or `null` when empty. */
  function Current(g: Game): (r: Option<Sc.Scene>)
    ensures r.None? <==> |g.scenes| == 0
    ensures r.Some? ==> r.value == g.scenes[|g.scenes| - 1]
  {
    if |g.scenes| == 0 then None else Some(g.scenes[|g.scenes| - 1])
  }

  /** `new Game1(scene)`: fails the debug assertion when an instance already
      exists; otherwise the stack holds just `scene`, not yet initialised. */
  function Construct(instanceExists: bool, scene: Sc.Scene): (r: Result<Game>)
    ensures r.Err? <==> instanceExists
    ensures r.Err? ==> r.error == AssertionFailed
    ensures r.Ok? ==> r.value.scenes == [scene] && Current(r.value) == Some(scene)
  {
    if instanceExists then Err(AssertionFailed) else Ok(Game([scene]))
  }

  /** `Initialize()`: initialises the initial scene, which is on top. The
      returned calls are the systems' `Init` hooks. */
  function Initialize(g: Game, debug: bool, fpsId: int): (r: Result<(Game, seq<Call>)>)
    requires |g.scenes| > 0
    ensures r.Ok? <==> Sc.Init(Current(g).value, debug, fpsId).Ok?
    ensures r.Ok? ==> |r.value.0.scenes| == |g.scenes|
    ensures r.Ok? ==> r.value.0.scenes[..|g.scenes| - 1] == g.scenes[..|g.scenes| - 1]
    ensures r.Ok? ==> Current(r.value.0) == Some(Sc.Init(Current(g).value, debug, fpsId).value.0)
  {
    var top := g.scenes[|g.scenes| - 1];
    var init := Sc.Init(top, debug, fpsId);
    if init.Err? then Err(init.error)
    else Ok((Game(g.scenes[..|g.scenes| - 1] + [init.value.0]), init.value.1))
  }

  /** `EnterScene(scene)`: pushes `scene`, making it current, then runs its
      `Init`; an exception from `Init` propagates. */
  function EnterScene(g: Game, scene: Sc.Scene, debug: bool, fpsId: int): (r: Result<(Game, seq<Call>)>)
    ensures r.Ok? <==> Sc.Init(scene, debug, fpsId).Ok?
    ensures r.Err? ==> r.error == Sc.Init(scene, debug, fpsId).error
    ensures r.Ok? ==> |r.value.0.scenes| == |g.scenes| + 1
    ensures r.Ok? ==> r.value.0.scenes[..|g.scenes|] == g.scenes
    ensures r.Ok? ==> Current(r.value.0) == Some(Sc.Init(scene, debug, fpsId).value.0)
    ensures r.Ok? ==> r.value.1 == Sc.Init(scene, debug, fpsId).value.1
  {
    var init := Sc.Init(scene, debug, fpsId);
    if init.Err? then Err(init.error)
    else Ok((Game(g.scenes + [init.value.0]), init.value.1))
  }

  /** `LeaveScene()`: with no scene it changes nothing; otherwise it pops
      the top scene and runs its `Cleanup`, whose calls it returns. */
  function LeaveScene(g: Game): (r: (Game, seq<Call>))
    ensures |g.scenes| == 0 ==> r == (g, [])
    ensures |g.scenes| > 0 ==> r.0.scenes == g.scenes[..|g.scenes| - 1]
    ensures |g.scenes| > 0 ==> r.1 == Sc.Cleanup(Current(g).value).1
    ensures |g.scenes| > 1 ==> Current(r.0) == Some(g.scenes[|g.scenes| - 2])
  {
    if |g.scenes| == 0 then (g, [])
    else (Game(g.scenes[..|g.scenes| - 1]), Sc.Cleanup(g.scenes[|g.scenes| - 1]).1)
  }

  /** Entering a scene and then leaving it gives back the stack, and so the
      current scene, from before. */
  lemma EnterThenLeave(g: Game, scene: Sc.Scene, debug: bool, fpsId: int)
    requires EnterScene(g, scene, debug, fpsId).Ok?
    ensures LeaveScene(EnterScene(g, scene, debug, fpsId).value.0).0 == g
    ensures Current(LeaveScene(EnterScene(g, scene, debug, fpsId).value.0).0) == Current(g)
  {
    var g1 := EnterScene(g, scene, debug, fpsId).value.0;
    assert g1.scenes[..|g1.scenes| - 1] == g.scenes;
  }

  /** `Update(gameTime)`: the current scene's `Update`, or nothing. */
  function Update(g: Game, t: real, dt: real): (r: seq<Call>)
    ensures Current(g).None? ==> r == []
    ensures Current(g).Some? ==> r == Sc.Update(Current(g).value, t, dt)
  {
    if |g.scenes| == 0 then [] else Sc.Update(g.scenes[|g.scenes| - 1], t, dt)
  }

  /** `Draw(gameTime)`: the current scene's `Draw`, or nothing. */
  function Draw(g: Game, t: real, dt: real): (r: seq<Call>)
    ensures Current(g).None? ==> r == []
    ensures Current(g).Some? ==> r == Sc.Draw(Current(g).value, t, dt)
  {
    if |g.scenes| == 0 then [] else Sc.Draw(g.scenes[|g.scenes| - 1], t, dt)
  }

  /** `RaiseGlobal(name, data)`: `Raise` in every stacked scene, in the
      order a `Stack` enumerates them, top first. */
  function RaiseGlobal(g: Game, name: string, data: Sc.EventData): (r: seq<Sc.Invocation>)
    decreases |g.scenes|
  {
    if |g.scenes| == 0 then []
    else Sc.Raise(g.scenes[|g.scenes| - 1], name, data) + RaiseGlobal(Game(g.scenes[..|g.scenes| - 1]), name, data)
  }

  /** `RaiseInScene(name, data)`: `Raise` in the current scene, if any. */
  function RaiseInScene(g: Game, name: string, data: Sc.EventData): (r: seq<Sc.Invocation>)
    ensures Current(g).None? ==> r == []
    ensures Current(g).Some? ==> r == Sc.Raise(Current(g).value, name, data)
  {
    if |g.scenes| == 0 then [] else Sc.Raise(g.scenes[|g.scenes| - 1], name, data)
  }

  /** Every scene's callbacks run in `RaiseGlobal`: its invocations are the
      current scene's followed by those of the stack below it. With one
      scene it is the same as `RaiseInScene`. */
  lemma {:induction false} RaiseGlobalCoversStack(g: Game, name: string, data: Sc.EventData)
    ensures |g.scenes| == 0 ==> RaiseGlobal(g, name, data) == []
    ensures |g.scenes| > 0 ==>
              RaiseGlobal(g, name, data) ==
              RaiseInScene(g, name, data) + RaiseGlobal(LeaveScene(g).0, name, data)
    ensures |g.scenes| == 1 ==> RaiseGlobal(g, name, data) == RaiseInScene(g, name, data)
  {
    if |g.scenes| == 1 {
      assert g.scenes[..0] == [];
      assert RaiseGlobal(Game([]), name, data) == [];
    }
  }

  /** How many callbacks the stacked scenes hold under `name`. */
  function CountCallbacks(g: Game, name: string): (r: nat)
    decreases |g.scenes|
  {
    if |g.scenes| == 0 then 0
    else
      var top := g.scenes[|g.scenes| - 1];
      var key := Sc.ToLower(name);
      (if key in top.events then |top.events[key]| else 0) + CountCallbacks(Game(g.scenes[..|g.scenes| - 1]), name)
  }

  /** Every callback registered under the name in any stacked scene is run
      by `RaiseGlobal`, once, with the same data. */
  lemma {:induction false} RaiseGlobalCount(g: Game, name: string, data: Sc.EventData)
    ensures |RaiseGlobal(g, name, data)| == CountCallbacks(g, name)
    ensures forall i | 0 <= i < |RaiseGlobal(g, name, data)| :: RaiseGlobal(g, name, data)[i].data == data
    decreases |g.scenes|
  {
    if |g.scenes| > 0 {
      var rest := Game(g.scenes[..|g.scenes| - 1]);
      RaiseGlobalCount(rest, name, data);
      var top := Sc.Raise(g.scenes[|g.scenes| - 1], name, data);
      var all := RaiseGlobal(g, name, data);
      assert all == top + RaiseGlobal(rest, name, data);
      forall i | 0 <= i < |all| ensures all[i].data == data {
        if i >= |top| {
          assert all[i] == RaiseGlobal(rest, name, data)[i - |top|];
        }
      }
    }
  }
}
