/** `LogicSystem` (`Systems/LogicSystem.cs`): every `CLogic` accumulates
    frame time and runs its callback once the accumulated time exceeds its
    period, then starts again from zero. A callback run is recorded as the
    entity it belongs to and the arguments it receives. */
module Logic {
  import opened Wrappers
  import opened Components
  import S = Store

  /** A call `Fn(t, period)` made for the logic component of `entity`. */
  datatype Fire = Fire(entity: int, fn: int, t: real, period: real)

  /** One component's step: the timer gains `dt`; only when it is then
      strictly above `InvHz` does the callback run, and the timer is reset
      to exactly zero. The flag says whether the callback ran. */
  function Tick(l: Logic, dt: real): (r: (Logic, bool))
    ensures r.1 <==> l.timer + dt > l.invHz
    ensures r.1 ==> r.0.timer == 0.0
    ensures !r.1 ==> r.0.timer == l.timer + dt
    ensures r.0.fn == l.fn && r.0.invHz == l.invHz
  {
    var acc := l.timer + dt;
    if acc <= l.invHz then (l.(timer := acc), false)
    else (l.(timer := 0.0), true)
  }

  /** With a non-negative period, the timer is never left above it: any
      excess over the period is dropped when the callback runs. */
  lemma TickKeepsTimerWithinPeriod(l: Logic, dt: real)
    requires l.invHz >= 0.0
    ensures Tick(l, dt).0.timer <= l.invHz
  {
  }

  /** A fresh default component at a 60 Hz frame rate runs its callback on
      the third frame, not before: two frames reach the period exactly,
      which is not enough. */
  lemma DefaultFiresOnThirdFrame(fn: int)
    ensures var dt := 1.0 / 60.0;
      var l0 := DefaultLogic(fn);
      var s1 := Tick(l0, dt);
      var s2 := Tick(s1.0, dt);
      var s3 := Tick(s2.0, dt);
      !s1.1 && !s2.1 && s3.1 && s3.0.timer == 0.0
  {
  }

  /** The loop of `Update(t, dt)` from position `i` of the `CLogic` table:
      each entry is cast to `CLogic` and ticked in place; the runs are
      collected in table order. */
  function UpdateFrom(ls: S.Store, t: real, dt: real, i: nat): (res: Result<(S.Store, seq<Fire>)>)
    requires S.Valid(ls) && i <= |ls.order|
    ensures res.Ok? ==> S.Valid(res.value.0) && res.value.0.order == ls.order
    ensures res.Ok? ==> res.value.0.entries.Keys == ls.entries.Keys
    decreases |ls.order| - i
  {
    if i == |ls.order| then Ok((ls, []))
    else
      var id := ls.order[i];
      var l :- AsLogic(ls.entries[id]);
      var (l1, fired) := Tick(l, dt);
      var rest :- UpdateFrom(S.Set(ls, id, CLogic(l1)), t, dt, i + 1);
      Ok((rest.0, (if fired then [Fire(id, l.fn, t, l.invHz)] else []) + rest.1))
  }

  /** `LogicSystem.Update(t, dt)` on the `CLogic` table. */
  function Update(ls: S.Store, t: real, dt: real): (res: Result<(S.Store, seq<Fire>)>)
    requires S.Valid(ls)
    ensures res.Ok? ==> S.Valid(res.value.0) && res.value.0.order == ls.order
    ensures res.Ok? ==> res.value.0.entries.Keys == ls.entries.Keys
  {
    UpdateFrom(ls, t, dt, 0)
  }

  /** The entry `c` is a logic component whose callback runs this frame. */
  predicate Fires(c: Component, dt: real) {
    c.CLogic? && Tick(c.logic, dt).1
  }

  /** One turn of `UpdateFrom`. */
  lemma UpdateFromUnfold(ls: S.Store, t: real, dt: real, i: nat)
    requires S.Valid(ls) && i < |ls.order|
    ensures UpdateFrom(ls, t, dt, i).Ok? ==> ls.entries[ls.order[i]].CLogic?
    ensures ls.entries[ls.order[i]].CLogic? ==>
              var id := ls.order[i];
              var l := ls.entries[id].logic;
              var rest := UpdateFrom(S.Set(ls, id, CLogic(Tick(l, dt).0)), t, dt, i + 1);
              && (UpdateFrom(ls, t, dt, i).Ok? <==> rest.Ok?)
              && (rest.Ok? ==>
                    UpdateFrom(ls, t, dt, i).value.0 == rest.value.0 &&
                    UpdateFrom(ls, t, dt, i).value.1 ==
                    (if Tick(l, dt).1 then [Fire(id, l.fn, t, l.invHz)] else []) + rest.value.1)
  {
  }

  /** The loop succeeds iff every entry from `i` on is a `CLogic`. */
  lemma {:induction false} UpdateFromOk(ls: S.Store, t: real, dt: real, i: nat)
    requires S.Valid(ls) && i <= |ls.order|
    ensures UpdateFrom(ls, t, dt, i).Ok? <==> forall j | i <= j < |ls.order| :: ls.entries[ls.order[j]].CLogic?
    decreases |ls.order| - i
  {
    if i < |ls.order| {
      UpdateFromUnfold(ls, t, dt, i);
      var id := ls.order[i];
      if ls.entries[id].CLogic? {
        var ls1 := S.Set(ls, id, CLogic(Tick(ls.entries[id].logic, dt).0));
        UpdateFromOk(ls1, t, dt, i + 1);
        forall j | i < j < |ls.order| ensures ls1.entries[ls.order[j]] == ls.entries[ls.order[j]] {
          assert ls.order[j] != id;
        }
      }
    }
  }

  /** Entry `k` of `out` is the tick of the logic component `k` holds in
      `ls`. */
  predicate Ticked(ls: S.Store, out: S.Store, k: int, dt: real) {
    && k in ls.entries && ls.entries[k].CLogic? && k in out.entries
    && out.entries[k] == CLogic(Tick(ls.entries[k].logic, dt).0)
  }

  /** One successful turn of `UpdateFrom` on the store alone: entry `i` is
      a logic component, and the rest of the loop runs on the store with
      that entry ticked. */
  lemma UpdateFromStore(ls: S.Store, t: real, dt: real, i: nat) returns (ls1: S.Store)
    requires S.Valid(ls) && i < |ls.order| && UpdateFrom(ls, t, dt, i).Ok?
    ensures ls.entries[ls.order[i]].CLogic?
    ensures ls1 == S.Set(ls, ls.order[i], CLogic(Tick(ls.entries[ls.order[i]].logic, dt).0))
    ensures S.Valid(ls1) && UpdateFrom(ls1, t, dt, i + 1).Ok?
    ensures UpdateFrom(ls, t, dt, i).value.0 == UpdateFrom(ls1, t, dt, i + 1).value.0
  {
    UpdateFromUnfold(ls, t, dt, i);
    ls1 := S.Set(ls, ls.order[i], CLogic(Tick(ls.entries[ls.order[i]].logic, dt).0));
  }

  /** One turn of the independence argument: ticking entry `i` and then
      every later entry leaves each entry its own tick. */
  lemma EntriesStep(ls: S.Store, out: S.Store, dt: real, i: nat)
    requires S.Valid(ls) && i < |ls.order| && ls.entries[ls.order[i]].CLogic?
    requires out.entries.Keys == ls.entries.Keys
    requires var ls1 := S.Set(ls, ls.order[i], CLogic(Tick(ls.entries[ls.order[i]].logic, dt).0));
      && (forall j | i + 1 <= j < |ls.order| :: Ticked(ls1, out, ls.order[j], dt))
      && (forall j | 0 <= j < i + 1 :: out.entries[ls.order[j]] == ls1.entries[ls.order[j]])
    ensures forall j | i <= j < |ls.order| :: Ticked(ls, out, ls.order[j], dt)
    ensures forall j | 0 <= j < i :: out.entries[ls.order[j]] == ls.entries[ls.order[j]]
  {
    var id := ls.order[i];
    var ls1 := S.Set(ls, id, CLogic(Tick(ls.entries[id].logic, dt).0));
    forall j | i <= j < |ls.order| ensures Ticked(ls, out, ls.order[j], dt) {
      if j > i {
        assert ls.order[j] != id;
        assert ls1.entries[ls.order[j]] == ls.entries[ls.order[j]];
        assert Ticked(ls1, out, ls.order[j], dt);
      } else {
        assert out.entries[id] == ls1.entries[id];
      }
    }
    forall j | 0 <= j < i ensures out.entries[ls.order[j]] == ls.entries[ls.order[j]] {
      assert ls.order[j] != id;
      assert out.entries[ls.order[j]] == ls1.entries[ls.order[j]];
    }
  }

  /** Components are independent: after a successful loop each entry from
      `i` on is its own tick, whatever the others hold, and the entries
      before `i` are untouched. */
  lemma {:induction false} UpdateFromEntries(ls: S.Store, t: real, dt: real, i: nat)
    requires S.Valid(ls) && i <= |ls.order|
    requires UpdateFrom(ls, t, dt, i).Ok?
    ensures var out := UpdateFrom(ls, t, dt, i).value.0;
      && (forall j | i <= j < |ls.order| :: Ticked(ls, out, ls.order[j], dt))
      && (forall j | 0 <= j < i :: out.entries[ls.order[j]] == ls.entries[ls.order[j]])
    decreases |ls.order| - i
  {
    if i < |ls.order| {
      var ls1 := UpdateFromStore(ls, t, dt, i);
      UpdateFromEntries(ls1, t, dt, i + 1);
      EntriesStep(ls, UpdateFrom(ls1, t, dt, i + 1).value.0, dt, i);
    }
  }

  /** The entities a sequence of runs belongs to, in order. */
  function Entities(fs: seq<Fire>): (r: seq<int>)
    ensures |r| == |fs| && forall m | 0 <= m < |fs| :: r[m] == fs[m].entity
  {
    seq(|fs|, m requires 0 <= m < |fs| => fs[m].entity)
  }

  lemma EntitiesConcat(a: seq<Fire>, b: seq<Fire>)
    ensures Entities(a + b) == Entities(a) + Entities(b)
  {
  }

  /** The callbacks that run are exactly those of the components whose
      timer passed their period, each once. */
  lemma {:induction false} UpdateFromFiredOnce(ls: S.Store, t: real, dt: real, i: nat)
    requires S.Valid(ls) && i <= |ls.order|
    requires UpdateFrom(ls, t, dt, i).Ok?
    ensures var ids := Entities(UpdateFrom(ls, t, dt, i).value.1);
      && (forall k :: k in ids <==> k in ls.order[i..] && Fires(ls.entries[k], dt))
      && S.Distinct(ids)
    decreases |ls.order| - i
  {
    if i < |ls.order| {
      UpdateFromUnfold(ls, t, dt, i);
      var id := ls.order[i];
      var l := ls.entries[id].logic;
      var ls1 := S.Set(ls, id, CLogic(Tick(l, dt).0));
      UpdateFromFiredOnce(ls1, t, dt, i + 1);
      var head := if Tick(l, dt).1 then [Fire(id, l.fn, t, l.invHz)] else [];
      var rest := UpdateFrom(ls1, t, dt, i + 1).value.1;
      EntitiesConcat(head, rest);
      var hids := if Fires(ls.entries[id], dt) then [id] else [];
      assert Entities(head) == hids;
      var rids := Entities(rest);
      var ids := Entities(UpdateFrom(ls, t, dt, i).value.1);
      assert ids == hids + rids;
      assert id !in ls.order[i + 1..];
      assert id !in rids;
      forall k ensures k in ids <==> k in ls.order[i..] && Fires(ls.entries[k], dt) {
        if k != id {
          assert k in ls.order[i..] <==> k in ls.order[i + 1..];
          if k in ls.order[i + 1..] {
            assert ls1.entries[k] == ls.entries[k];
          }
        } else {
          assert k in ls.order[i..];
        }
      }
      if Fires(ls.entries[id], dt) {
        S.DistinctCons(id, rids);
      }
    }
  }

  /** Run `f` belongs to a logic component of `ls` among `ids` and passes
      the frame time and that component's nominal period. */
  predicate RunOf(ls: S.Store, ids: seq<int>, t: real, f: Fire)
    requires S.Valid(ls)
  {
    && f.entity in ids && f.entity in ls.entries && ls.entries[f.entity].CLogic?
    && var l := ls.entries[f.entity].logic;
       f.fn == l.fn && f.t == t && f.period == l.invHz
  }

  /** One successful turn of `UpdateFrom` on the runs alone: entry `i`'s
      run, if its timer passed the period, comes before the rest. */
  lemma UpdateFromRuns(ls: S.Store, t: real, dt: real, i: nat) returns (ls1: S.Store, head: seq<Fire>)
    requires S.Valid(ls) && i < |ls.order| && UpdateFrom(ls, t, dt, i).Ok?
    ensures ls.entries[ls.order[i]].CLogic?
    ensures var l := ls.entries[ls.order[i]].logic;
      && ls1 == S.Set(ls, ls.order[i], CLogic(Tick(l, dt).0))
      && head == (if Tick(l, dt).1 then [Fire(ls.order[i], l.fn, t, l.invHz)] else [])
    ensures S.Valid(ls1) && UpdateFrom(ls1, t, dt, i + 1).Ok?
    ensures UpdateFrom(ls, t, dt, i).value.1 == head + UpdateFrom(ls1, t, dt, i + 1).value.1
  {
    UpdateFromUnfold(ls, t, dt, i);
    var l := ls.entries[ls.order[i]].logic;
    ls1 := S.Set(ls, ls.order[i], CLogic(Tick(l, dt).0));
    head := if Tick(l, dt).1 then [Fire(ls.order[i], l.fn, t, l.invHz)] else [];
  }

  /** One turn of the run-arguments argument: entry `i`'s own run, then
      runs of later entries of the ticked store, are runs of `ls`. */
  lemma FireArgsStep(ls: S.Store, t: real, dt: real, i: nat, rest: seq<Fire>)
    requires S.Valid(ls) && i < |ls.order| && ls.entries[ls.order[i]].CLogic?
    requires var ls1 := S.Set(ls, ls.order[i], CLogic(Tick(ls.entries[ls.order[i]].logic, dt).0));
      forall m | 0 <= m < |rest| :: RunOf(ls1, ls.order[i + 1..], t, rest[m])
    ensures var l := ls.entries[ls.order[i]].logic;
      var fires := (if Tick(l, dt).1 then [Fire(ls.order[i], l.fn, t, l.invHz)] else []) + rest;
      forall m | 0 <= m < |fires| :: RunOf(ls, ls.order[i..], t, fires[m])
  {
    var id := ls.order[i];
    var l := ls.entries[id].logic;
    var ls1 := S.Set(ls, id, CLogic(Tick(l, dt).0));
    var head := if Tick(l, dt).1 then [Fire(id, l.fn, t, l.invHz)] else [];
    var fires := head + rest;
    assert id !in ls.order[i + 1..];
    assert ls.order[i..] == [id] + ls.order[i + 1..];
    forall m | 0 <= m < |fires| ensures RunOf(ls, ls.order[i..], t, fires[m]) {
      if m < |head| {
        assert fires[m] == Fire(id, l.fn, t, l.invHz);
      } else {
        var f := rest[m - |head|];
        assert fires[m] == f;
        assert RunOf(ls1, ls.order[i + 1..], t, f);
        assert f.entity != id;
        assert ls1.entries[f.entity] == ls.entries[f.entity];
      }
    }
  }

  /** Every run passes the frame time and the component's nominal period,
      not the time it accumulated. */
  lemma {:induction false} UpdateFromFireArgs(ls: S.Store, t: real, dt: real, i: nat)
    requires S.Valid(ls) && i <= |ls.order|
    requires UpdateFrom(ls, t, dt, i).Ok?
    ensures var fires := UpdateFrom(ls, t, dt, i).value.1;
      forall m | 0 <= m < |fires| :: RunOf(ls, ls.order[i..], t, fires[m])
    decreases |ls.order| - i
  {
    if i < |ls.order| {
      var ls1, head := UpdateFromRuns(ls, t, dt, i);
      UpdateFromFireArgs(ls1, t, dt, i + 1);
      FireArgsStep(ls, t, dt, i, UpdateFrom(ls1, t, dt, i + 1).value.1);
    }
  }
}
