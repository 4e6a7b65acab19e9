/** `FpsCounterSystem` (`Systems/FpsCounterSystem.cs`): counts updates and
    draws, and once per reporting interval publishes the two rates to every
    `CFPS` label and starts counting again. */
module Fps {
  import opened Wrappers
  import opened Components
  import S = Store
  import R = Registry

  /** The reporting interval `1f / updatesPerSec`; a rate of zero gives the
      float infinity, which the timer never reaches. */
  datatype Interval = Finite(len: NonZero) | Infinite

  /** The length of a finite interval, one over a non-zero rate. */
  type NonZero = x: real | x != 0.0 witness 1.0

  /** The interval `new FpsCounterSystem(updatesPerSec)` stores. */
  function IntervalOf(updatesPerSec: int): (r: Interval)
    ensures r.Infinite? <==> updatesPerSec == 0
    ensures r.Finite? ==> r.len * (updatesPerSec as real) == 1.0
  {
    if updatesPerSec == 0 then Infinite
    else
      var len := 1.0 / updatesPerSec as real;
      assert len * (updatesPerSec as real) == 1.0;
      Finite(len)
  }

  datatype Counter = Counter(interval: Interval, draws: int, updates: int, timer: real)

  /** `new FpsCounterSystem(updatesPerSec)`. */
  function New(updatesPerSec: int): (r: Counter)
    ensures r.interval == IntervalOf(updatesPerSec)
    ensures r.draws == 0 && r.updates == 0 && r.timer == 0.0
  {
    Counter(IntervalOf(updatesPerSec), 0, 0, 0.0)
  }

  /** `Update(t, dt)`: counts the update and does nothing else. */
  function Update(c: Counter): (r: Counter)
    ensures r.updates == c.updates + 1
    ensures r == c.(updates := r.updates)
  {
    c.(updates := c.updates + 1)
  }

  /** The timer has reached the interval. */
  predicate Due(interval: Interval, timer: real) {
    interval.Finite? && timer >= interval.len
  }

  /** Every `CFPS` label of a table shows `rates`; other entries are kept. */
  function Publish(st: S.Store, rates: FpsRates): (r: S.Store)
    requires S.Valid(st)
    ensures S.Valid(r) && r.order == st.order && r.entries.Keys == st.entries.Keys
    ensures forall k | k in st.entries && st.entries[k].CFps? :: r.entries[k] == CFps(Some(rates))
    ensures forall k | k in st.entries && !st.entries[k].CFps? :: r.entries[k] == st.entries[k]
  {
    S.Store(st.order, map k | k in st.entries :: if st.entries[k].CFps? then CFps(Some(rates)) else st.entries[k])
  }

  /** `Draw(t, dt)`: counts the draw and advances the timer; once the timer
      has reached the interval, the rates over the interval (from the counts
      before they are cleared) go to every `CFPS` label among the 2D
      renderables, both counts restart at zero and exactly one interval is
      taken off the timer. Returns the rates when published. */
  function Draw(c: Counter, dt: real, r: R.Registry): (res: (Counter, R.Registry, Option<FpsRates>))
    requires R.Valid(r)
    ensures R.Valid(res.1) && res.1.entities == r.entities && res.1.stores.Keys == r.stores.Keys
    ensures res.2.None? <==> !Due(c.interval, c.timer + dt)
    ensures res.2.None? ==> res.0 == c.(draws := c.draws + 1, timer := c.timer + dt) && res.1 == r
    ensures res.2.Some? ==>
              && res.2.value == FpsRates((c.draws + 1) as real / c.interval.len, c.updates as real / c.interval.len)
              && res.0 == c.(draws := 0, updates := 0, timer := c.timer + dt - c.interval.len)
    ensures res.2.Some? ==>
              forall t | t in r.stores && t != T2DRenderable :: res.1.stores[t] == r.stores[t]
    ensures res.2.Some? && T2DRenderable in r.stores ==>
              res.1.stores[T2DRenderable] == Publish(r.stores[T2DRenderable], res.2.value)
  {
    var c1 := c.(draws := c.draws + 1, timer := c.timer + dt);
    if !Due(c1.interval, c1.timer) then (c1, r, None)
    else
      var rates := FpsRates(c1.draws as real / c1.interval.len, c1.updates as real / c1.interval.len);
      var r1 := if T2DRenderable in r.stores
                then r.(stores := r.stores[T2DRenderable := Publish(r.stores[T2DRenderable], rates)])
                else r;
      (c1.(draws := 0, updates := 0, timer := c1.timer - c1.interval.len), r1, Some(rates))
  }

  /** A frame of the game as the counter sees it. */
  datatype Event = UpdateEvent | DrawEvent(dt: real)

  /** The counter after a run of frames. */
  function Run(c: Counter, r: R.Registry, evs: seq<Event>): (res: (Counter, R.Registry))
    requires R.Valid(r)
    ensures R.Valid(res.1)
    ensures res.0.interval == c.interval
    decreases |evs|
  {
    if |evs| == 0 then (c, r)
    else if evs[0].UpdateEvent? then Run(Update(c), r, evs[1..])
    else
      var d := Draw(c, evs[0].dt, r);
      Run(d.0, d.1, evs[1..])
  }

  /** With non-negative frame times the timer never goes negative, and the
      counts never do either. */
  lemma {:induction false} RunKeepsTimerNonNegative(c: Counter, r: R.Registry, evs: seq<Event>)
    requires R.Valid(r)
    requires c.timer >= 0.0 && c.draws >= 0 && c.updates >= 0
    requires forall i | 0 <= i < |evs| && evs[i].DrawEvent? :: evs[i].dt >= 0.0
    ensures Run(c, r, evs).0.timer >= 0.0
    ensures Run(c, r, evs).0.draws >= 0 && Run(c, r, evs).0.updates >= 0
    decreases |evs|
  {
    if |evs| > 0 {
      assert forall i | 0 <= i < |evs[1..]| && evs[1..][i].DrawEvent? :: evs[1..][i].dt >= 0.0 by {
        forall i | 0 <= i < |evs[1..]| && evs[1..][i].DrawEvent? ensures evs[1..][i].dt >= 0.0 {
          assert evs[1..][i] == evs[i + 1];
        }
      }
      if evs[0].UpdateEvent? {
        RunKeepsTimerNonNegative(Update(c), r, evs[1..]);
      } else {
        var d := Draw(c, evs[0].dt, r);
        RunKeepsTimerNonNegative(d.0, d.1, evs[1..]);
      }
    }
  }

  /** With an infinite interval (zero reports a second) nothing is ever
      published and the registry is never touched. */
  lemma {:induction false} InfiniteNeverPublishes(c: Counter, r: R.Registry, evs: seq<Event>)
    requires R.Valid(r) && c.interval.Infinite?
    ensures Run(c, r, evs).1 == r
    decreases |evs|
  {
    if |evs| > 0 {
      if evs[0].UpdateEvent? {
        InfiniteNeverPublishes(Update(c), r, evs[1..]);
      } else {
        InfiniteNeverPublishes(Draw(c, evs[0].dt, r).0, r, evs[1..]);
      }
    }
  }
}
