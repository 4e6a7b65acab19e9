/** The selection logic of `MenuScene` (`MenuScene.cs`): a list of labels,
    a selected index that wraps around, a highlight that follows it, and a
    lock that lets a held key act only once. Item callbacks are ids; the
    keyboard state is the set of keys held this frame. */
module Menu {
  import opened Wrappers
  import opened Vectors
  import opened Components
  import opened Systems
  import R = Registry
  import Sc = Scene

  datatype Item = Item(select: int, text: Text)

  datatype Menu = Menu(items: seq<Item>, sel: int, canInteract: bool, highlight: Text,
                       upKey: Key, downKey: Key, selectKey: Key)

  /** What a frame of the menu does besides moving the selection: a
      `selchanged` event carrying the new index, or an item's callback. */
  datatype Action = SelChanged(index: int) | Selected(cb: int)

  /** A menu before any label: nothing selected yet (index 0), unlocked,
      the default keys and the `--->` highlight at (150, 0). */
  function New(): (m: Menu)
    ensures m.items == [] && m.sel == 0 && m.canInteract
    ensures m.upKey == Up && m.downKey == Down && m.selectKey == Enter
  {
    Menu([], 0, true, Text("--->", Vec2(150.0, 0.0)), Up, Down, Enter)
  }

  /** `MenuScene.Init()`: adds a 2D rendering system, runs the scene's own
      `Init`, then puts the `--->` highlight on a new entity as a 2D
      renderable. Returns the scene, the `Init` hooks run and the
      highlight's entity. */
  function Init(sc: Sc.Scene, renderer: int, debug: bool, fpsId: int): (res: Result<(Sc.Scene, seq<Call>, int)>)
    requires Sc.Valid(sc)
    ensures res.Ok? <==> forall t | t in SceneTags :: t !in sc.reg.stores
    ensures res.Err? ==> res.error == DuplicateKey
    ensures res.Ok? ==>
      var sc1, calls, eid := res.value.0, res.value.1, res.value.2;
      && Sc.Valid(sc1) && sc1.id == sc.id && sc1.events == sc.events
      && |sc1.systems| > |sc.systems|
      && sc1.systems[..|sc.systems| + 1] == sc.systems + [BindScene(Leaf(renderer, None), sc.id)]
      && calls == DispatchAll(sc1.systems, InitHook)
      && eid == sc.reg.counter + 1 && eid !in sc.reg.entities
      && sc1.reg.entities == sc.reg.entities + [eid]
      && R.GetComponentFromEntity(sc1.reg, T2DRenderable, eid) == Ok(CText(New().highlight))
  {
    var sc0 := Sc.AddSystems(sc, [Leaf(renderer, None)]);
    var inited :- Sc.Init(sc0, debug, fpsId);
    Sc.InitKeepsValid(sc0, debug, fpsId);
    var added := R.AddEntity(inited.0.reg);
    var reg :- R.AddComponent(added.0, added.1, CText(New().highlight), T2DRenderable);
    Ok((inited.0.(reg := reg), inited.1, added.1))
  }

  /** One step up: from the first item to the last, otherwise back by one. */
  function MoveUp(i: int, n: int): (r: int)
    requires 0 <= i < n
    ensures 0 <= r < n
    ensures i == 0 ==> r == n - 1
    ensures i > 0 ==> r == i - 1
  {
    if i - 1 < 0 then n - 1 else i - 1
  }

  /** One step down: from the last item to the first, otherwise on by one. */
  function MoveDown(i: int, n: int): (r: int)
    requires 0 <= i < n
    ensures 0 <= r < n
    ensures i == n - 1 ==> r == 0
    ensures i < n - 1 ==> r == i + 1
  {
    if i + 1 >= n then 0 else i + 1
  }

  /** Up and down undo each other, so pressing both in one frame leaves the
      selection where it was. */
  lemma UpDownCancel(i: int, n: int)
    requires 0 <= i < n
    ensures MoveDown(MoveUp(i, n), n) == i
    ensures MoveUp(MoveDown(i, n), n) == i
  {
  }

  /** `Draw(t, dt)`: the highlight moves to the row of the item selected
      at the start of the frame (an empty menu, or an index outside the
      list, throws); then, unless the menu is locked, up, down and select
      act in that order; the menu is unlocked for the next frame iff none
      of the three keys is held. */
  function Draw(m: Menu, keys: set<Key>): (r: Result<(Menu, seq<Action>)>)
    ensures r.Err? <==> !(0 <= m.sel < |m.items|)
    ensures r.Err? ==> r.error == IndexOutOfRange
    ensures r.Ok? ==> 0 <= r.value.0.sel < |m.items|
    ensures r.Ok? ==> r.value.0.items == m.items
    ensures r.Ok? ==> r.value.0.highlight.position == Vec2(m.highlight.position.x, m.items[m.sel].text.position.y)
    ensures r.Ok? ==> (r.value.0.canInteract <==> m.upKey !in keys && m.downKey !in keys && m.selectKey !in keys)
  {
    if !(0 <= m.sel < |m.items|) then Err(IndexOutOfRange)
    else
      var n := |m.items|;
      var hl := m.highlight.(position := m.highlight.position.(y := m.items[m.sel].text.position.y));
      var up := m.upKey in keys && m.canInteract;
      var i1 := if up then MoveUp(m.sel, n) else m.sel;
      var down := m.downKey in keys && m.canInteract;
      var i2 := if down then MoveDown(i1, n) else i1;
      var pick := m.selectKey in keys && m.canInteract;
      var acts := (if up then [SelChanged(i1)] else []) + (if down then [SelChanged(i2)] else [])
                  + (if pick then [Selected(m.items[i2].select)] else []);
      var free := m.upKey !in keys && m.downKey !in keys && m.selectKey !in keys;
      Ok((m.(sel := i2, highlight := hl, canInteract := free), acts))
  }

  /** While the menu is locked no key moves the selection, raises an event
      or selects anything. */
  lemma LockedDoesNothing(m: Menu, keys: set<Key>)
    requires Draw(m, keys).Ok? && !m.canInteract
    ensures Draw(m, keys).value.0.sel == m.sel
    ensures Draw(m, keys).value.1 == []
  {
  }

  /** An unlocked frame: each pressed direction key moves the selection one
      step (wrapping) and raises exactly one `selchanged` with the index it
      moved to; a pressed select key runs the callback of the item the
      moves arrived at. */
  lemma UnlockedMoves(m: Menu, keys: set<Key>)
    requires Draw(m, keys).Ok? && m.canInteract
    requires m.upKey != m.downKey && m.upKey != m.selectKey && m.downKey != m.selectKey
    ensures var n := |m.items|;
      var i1 := if m.upKey in keys then MoveUp(m.sel, n) else m.sel;
      var i2 := if m.downKey in keys then MoveDown(i1, n) else i1;
      var acts := Draw(m, keys).value.1;
      && Draw(m, keys).value.0.sel == i2
      && |acts| == (if m.upKey in keys then 1 else 0) + (if m.downKey in keys then 1 else 0) + (if m.selectKey in keys then 1 else 0)
      && (m.upKey in keys ==> acts[0] == SelChanged(i1))
      && (m.downKey in keys ==> acts[if m.upKey in keys then 1 else 0] == SelChanged(i2))
      && (m.selectKey in keys ==> acts[|acts| - 1] == Selected(m.items[i2].select))
  {
  }

  /** A key held over two frames acts only in the first: the second frame
      finds the menu locked. */
  lemma HeldKeyActsOnce(m: Menu, keys: set<Key>)
    requires Draw(m, keys).Ok?
    requires m.upKey in keys || m.downKey in keys || m.selectKey in keys
    ensures var m1 := Draw(m, keys).value.0;
      Draw(m1, keys).Ok? && Draw(m1, keys).value.1 == [] && Draw(m1, keys).value.0.sel == m1.sel
  {
  }

  /** `mSelHighlight` is the very `CText` that `Init` registered for the
      entity `eid`, so moving it in `Draw` moves the registered component:
      the frame's `Draw` with the highlight written back to that entity's
      2D renderable (when it is still registered). */
  function DrawRegistered(reg: R.Registry, eid: int, m: Menu, keys: set<Key>): (res: Result<(R.Registry, Menu, seq<Action>)>)
    requires R.Valid(reg)
    ensures res.Ok? <==> Draw(m, keys).Ok?
    ensures res.Ok? ==> res.value.1 == Draw(m, keys).value.0 && res.value.2 == Draw(m, keys).value.1
    ensures res.Ok? ==> R.Valid(res.value.0) && res.value.0.entities == reg.entities
    ensures res.Ok? && R.Stored(reg, T2DRenderable, eid) ==>
              R.GetComponentFromEntity(res.value.0, T2DRenderable, eid) == Ok(CText(res.value.1.highlight))
    ensures res.Ok? ==> forall t, k | (t, k) != (T2DRenderable, eid) ::
              R.GetComponentFromEntity(res.value.0, t, k) == R.GetComponentFromEntity(reg, t, k)
    ensures res.Ok? && !R.Stored(reg, T2DRenderable, eid) ==> res.value.0 == reg
  {
    var drawn :- Draw(m, keys);
    var reg1 := if R.Stored(reg, T2DRenderable, eid) then R.SetComponent(reg, T2DRenderable, eid, CText(drawn.0.highlight)) else reg;
    Ok((reg1, drawn.0, drawn.1))
  }

  /** The highlight `Init` registers is the one `DrawRegistered` keeps in
      step: after `Init` and a frame, the highlight entity's renderable
      sits on the row of the item selected at the start of the frame. */
  lemma InitThenDraw(sc: Sc.Scene, renderer: int, debug: bool, fpsId: int, items: seq<Item>, keys: set<Key>)
    requires Sc.Valid(sc) && Init(sc, renderer, debug, fpsId).Ok? && |items| > 0
    ensures var sc1 := Init(sc, renderer, debug, fpsId).value.0;
      var eid := Init(sc, renderer, debug, fpsId).value.2;
      var m := New().(items := items);
      var res := DrawRegistered(sc1.reg, eid, m, keys);
      && res.Ok?
      && R.GetComponentFromEntity(res.value.0, T2DRenderable, eid) == Ok(CText(Text("--->", Vec2(150.0, items[0].text.position.y))))
  {
  }

  /** `(int)y`: C# float-to-int conversion truncates toward zero. */
  function Trunc(y: real): (r: int)
    ensures y >= 0.0 ==> r as real <= y < r as real + 1.0
    ensures y < 0.0 ==> r as real - 1.0 < y <= r as real
  {
    if y >= 0.0 then y.Floor else -((-y).Floor)
  }

  lemma TruncOfInt(n: int)
    ensures Trunc(n as real) == n
  {
  }

  /** `CreateLabel(text, cb)`: a new label at x = 300, on row 100 if it is
      the first and 30 below the previous label otherwise; it gets a new
      entity holding its text as a 2D renderable. */
  function CreateLabel(m: Menu, r: R.Registry, text: string, cb: int): (res: Result<(Menu, R.Registry, int)>)
    requires R.Valid(r)
    ensures res.Ok? <==> T2DRenderable in r.stores && r.counter + 1 !in r.stores[T2DRenderable].entries
    ensures res.Err? ==> res.error == (if T2DRenderable in r.stores then DuplicateKey else MissingKey)
    ensures res.Ok? ==> var m1, r1, eid := res.value.0, res.value.1, res.value.2;
      && |m1.items| == |m.items| + 1 && m1.items[..|m.items|] == m.items
      && m1.items[|m.items|].select == cb && m1.items[|m.items|].text.format == text
      && m1.items[|m.items|].text.position.x == 300.0
      && m1.items[|m.items|].text.position.y ==
         (if |m.items| == 0 then 100 else Trunc(m.items[|m.items| - 1].text.position.y) + 30) as real
      && R.Valid(r1) && eid == r.counter + 1 && r1.entities == r.entities + [eid]
      && R.GetComponentFromEntity(r1, T2DRenderable, eid) == Ok(CText(m1.items[|m.items|].text))
      && m1.sel == m.sel && m1.canInteract == m.canInteract
  {
    var y := if |m.items| > 0 then Trunc(m.items[|m.items| - 1].text.position.y) + 30 else 100;
    var item := Item(cb, Text(text, Vec2(300 as real, y as real)));
    var added := R.AddEntity(r);
    var eid := added.1;
    var r2 :- R.AddComponent(added.0, eid, CText(item.text), T2DRenderable);
    Ok((m.(items := m.items + [item]), r2, eid))
  }

  /** Labels created in a row on an empty menu: the `i`-th sits on row
      100 + 30·i, all at x = 300. */
  function CreateLabels(m: Menu, r: R.Registry, texts: seq<string>, cbs: seq<int>): (res: Result<(Menu, R.Registry)>)
    requires R.Valid(r) && |texts| == |cbs|
    ensures res.Ok? ==> R.Valid(res.value.1)
    ensures res.Ok? ==> |res.value.0.items| == |m.items| + |texts| && res.value.0.items[..|m.items|] == m.items
    decreases |texts|
  {
    if |texts| == 0 then Ok((m, r))
    else
      var step :- CreateLabel(m, r, texts[0], cbs[0]);
      var rest :- CreateLabels(step.0, step.1, texts[1..], cbs[1..]);
      assert rest.0.items[..|m.items|] == step.0.items[..|m.items|];
      Ok(rest)
  }

  /** One turn of `CreateLabels`. */
  lemma CreateLabelsUnfold(m: Menu, r: R.Registry, texts: seq<string>, cbs: seq<int>)
    requires R.Valid(r) && |texts| == |cbs| && |texts| > 0
    requires CreateLabels(m, r, texts, cbs).Ok?
    ensures CreateLabel(m, r, texts[0], cbs[0]).Ok?
    ensures var step := CreateLabel(m, r, texts[0], cbs[0]).value;
      && CreateLabels(step.0, step.1, texts[1..], cbs[1..]).Ok?
      && CreateLabels(m, r, texts, cbs).value.0 == CreateLabels(step.0, step.1, texts[1..], cbs[1..]).value.0
  {
  }

  /** The row `CreateLabel` gives the `i`-th label of a menu. */
  function Row(i: int): (y: int)
    ensures y == 100 + 30 * i
  {
    100 + 30 * i
  }

  /** On a menu laid out so far, `CreateLabel` puts the new label on the
      next row. */
  lemma CreateLabelRow(m: Menu, r: R.Registry, text: string, cb: int)
    requires R.Valid(r)
    requires |m.items| == 0 || m.items[|m.items| - 1].text.position.y == Row(|m.items| - 1) as real
    requires CreateLabel(m, r, text, cb).Ok?
    ensures var m1 := CreateLabel(m, r, text, cb).value.0;
      && |m1.items| == |m.items| + 1 && m1.items[..|m.items|] == m.items
      && m1.items[|m.items|].text.position == Vec2(300.0, Row(|m.items|) as real)
  {
    var k := |m.items|;
    if k > 0 {
      TruncOfInt(Row(k - 1));
      assert Row(k - 1) + 30 == Row(k);
    }
  }

  /** Labels created in a row on a menu laid out by `CreateLabel` (empty,
      or last label on its row) continue the layout: the `i`-th sits at
      (300, `Row(i)`). */
  lemma {:induction false} LabelRows(m: Menu, r: R.Registry, texts: seq<string>, cbs: seq<int>)
    requires R.Valid(r) && |texts| == |cbs|
    requires |m.items| == 0 || m.items[|m.items| - 1].text.position.y == Row(|m.items| - 1) as real
    requires CreateLabels(m, r, texts, cbs).Ok?
    ensures var items := CreateLabels(m, r, texts, cbs).value.0.items;
      forall i | |m.items| <= i < |items| :: items[i].text.position == Vec2(300.0, Row(i) as real)
    decreases |texts|
  {
    if |texts| > 0 {
      CreateLabelsUnfold(m, r, texts, cbs);
      var step := CreateLabel(m, r, texts[0], cbs[0]).value;
      var k := |m.items|;
      CreateLabelRow(m, r, texts[0], cbs[0]);
      LabelRows(step.0, step.1, texts[1..], cbs[1..]);
      var items := CreateLabels(m, r, texts, cbs).value.0.items;
      var tail := CreateLabels(step.0, step.1, texts[1..], cbs[1..]).value.0.items;
      assert items == tail;
      assert tail[..k + 1] == step.0.items;
      assert items[k] == step.0.items[k] by {
        assert items[k] == tail[..k + 1][k];
      }
    }
  }

  /** The selection after a run of frames, one key set per frame. */
  function Run(m: Menu, frames: seq<set<Key>>): (r: Result<Menu>)
    decreases |frames|
  {
    if |frames| == 0 then Ok(m)
    else
      var step :- Draw(m, frames[0]);
      Run(step.0, frames[1..])
  }

  /** Once a menu has an item, no run of frames fails or moves the
      selection out of the list. */
  lemma {:induction false} RunStaysInRange(m: Menu, frames: seq<set<Key>>)
    requires 0 <= m.sel < |m.items|
    ensures Run(m, frames).Ok?
    ensures 0 <= Run(m, frames).value.sel < |m.items| && Run(m, frames).value.items == m.items
    decreases |frames|
  {
    if |frames| > 0 {
      RunStaysInRange(Draw(m, frames[0]).value.0, frames[1..]);
    }
  }
}
