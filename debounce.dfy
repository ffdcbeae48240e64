/**
 * `useDebounce(value, delay)` (use-debounce.ts:4-18) as a discrete-event machine
 * on a logical clock. The hook keeps a `debouncedValue` state cell and, per
 * effect run, one timer handle. The host's timer queue is part of the state so
 * that `setTimeout` and `clearTimeout` can be followed exactly: every change of
 * `value` or `delay` runs the previous effect's cleanup (clearing its handle)
 * and then schedules a fresh timer that will write the value of that render.
 */
module Debounce {

  /** A scheduled `setTimeout`: its handle, the clock reading at which it fires, the value it writes. */
  datatype Timer<T> = Timer(handle: nat, due: nat, payload: T)

  /**
   * value, delay: the arguments of the latest render; debounced: the state cell;
   * timers: the host's pending timeouts; handle: the handle the current effect
   * owns; nextHandle: the next handle the host gives out; now: the logical clock;
   * mounted: false once the owning component has unmounted.
   */
  datatype State<T> = State(
    value: T,
    delay: nat,
    debounced: T,
    timers: seq<Timer<T>>,
    handle: nat,
    nextHandle: nat,
    now: nat,
    mounted: bool)

  /** Render: the hook is called with these arguments; Tick: one unit of time passes; Unmount: cleanup. */
  datatype Event<T> = Render(value: T, delay: nat) | Tick | Unmount

  /** The timeouts left after `clearTimeout(h)`. */
  function Without<T>(ts: seq<Timer<T>>, h: nat): (r: seq<Timer<T>>)
    ensures forall k :: 0 <= k < |r| ==> r[k].handle != h && r[k] in ts
    ensures |r| <= |ts|
  {
    if ts == [] then []
    else if ts[0].handle == h then Without(ts[1..], h)
    else [ts[0]] + Without(ts[1..], h)
  }

  /** The timeouts that are due at clock reading t, in scheduling order. */
  function DueBy<T>(ts: seq<Timer<T>>, t: nat): (r: seq<Timer<T>>)
    ensures forall k :: 0 <= k < |r| ==> r[k].due <= t && r[k] in ts
    ensures |r| <= |ts|
  {
    if ts == [] then []
    else if ts[0].due <= t then [ts[0]] + DueBy(ts[1..], t)
    else DueBy(ts[1..], t)
  }

  /** The timeouts still waiting at clock reading t. */
  function Later<T>(ts: seq<Timer<T>>, t: nat): (r: seq<Timer<T>>)
    ensures forall k :: 0 <= k < |r| ==> r[k].due > t && r[k] in ts
    ensures |r| + |DueBy(ts, t)| == |ts|
  {
    if ts == [] then []
    else if ts[0].due <= t then Later(ts[1..], t)
    else [ts[0]] + Later(ts[1..], t)
  }

  function Payloads<T>(ts: seq<Timer<T>>): (r: seq<T>)
    ensures |r| == |ts| && forall k :: 0 <= k < |ts| ==> r[k] == ts[k].payload
  {
    if ts == [] then [] else [ts[0].payload] + Payloads(ts[1..])
  }

  /** The first render: state starts at the initial value and the mount effect schedules one timer. */
  function Init<T>(v: T, d: nat): (s: State<T>)
    ensures s.debounced == v && s.value == v && s.mounted
    ensures s.timers == [Timer(s.handle, d, v)]
  {
    State(v, d, v, [Timer(0, d, v)], 0, 1, 0, true)
  }

  /** The next state after one event. */
  function Step<T(==)>(s: State<T>, e: Event<T>): State<T> {
    match e
    case Render(v, d) =>
      if !s.mounted || (v == s.value && d == s.delay) then s
      else
        // cleanup of the previous effect, then the new effect's setTimeout
        var cleared := Without(s.timers, s.handle);
        s.(value := v, delay := d,
           timers := cleared + [Timer(s.nextHandle, s.now + d, v)],
           handle := s.nextHandle, nextHandle := s.nextHandle + 1)
    case Tick =>
      var t := s.now + 1;
      var due := DueBy(s.timers, t);
      s.(now := t, timers := Later(s.timers, t),
         debounced := if due == [] then s.debounced else due[|due| - 1].payload)
    case Unmount =>
      if !s.mounted then s
      else s.(timers := Without(s.timers, s.handle), mounted := false)
  }

  /** The values written into the state cell by the timers that fire during one event. */
  function Fired<T(==)>(s: State<T>, e: Event<T>): seq<T> {
    if e.Tick? then Payloads(DueBy(s.timers, s.now + 1)) else []
  }

  function Run<T(==)>(s: State<T>, es: seq<Event<T>>): State<T>
    decreases |es|
  {
    if es == [] then s else Run(Step(s, es[0]), es[1..])
  }

  /** Every write into the state cell over a run of events, in order. */
  function Updates<T(==)>(s: State<T>, es: seq<Event<T>>): seq<T>
    decreases |es|
  {
    if es == [] then [] else Fired(s, es[0]) + Updates(Step(s, es[0]), es[1..])
  }

  function Ticks<T>(n: nat): (es: seq<Event<T>>)
    ensures |es| == n && forall k :: 0 <= k < n ==> es[k] == Tick
  {
    if n == 0 then [] else Ticks(n - 1) + [Tick]
  }

  /**
   * The machine's invariant: at most one timeout is pending, it is the one the
   * current effect owns, and it carries the value of the latest render; after
   * unmounting none is pending.
   */
  ghost predicate Valid<T>(s: State<T>) {
    s.handle < s.nextHandle &&
    (forall k :: 0 <= k < |s.timers| ==> s.timers[k].handle < s.nextHandle) &&
    (s.timers == [] ||
     (|s.timers| == 1 && s.timers[0].handle == s.handle && s.timers[0].payload == s.value)) &&
    (!s.mounted ==> s.timers == [])
  }

  lemma {:induction false} WithoutOwner<T>(ts: seq<Timer<T>>, h: nat)
    requires forall k :: 0 <= k < |ts| ==> ts[k].handle == h
    ensures Without(ts, h) == []
  {
    if ts != [] {
      WithoutOwner(ts[1..], h);
    }
  }

  lemma InitValid<T>(v: T, d: nat)
    ensures Valid(Init(v, d))
  {
  }

  /** Every event keeps the invariant, so at most one timeout is ever pending. */
  lemma StepValid<T>(s: State<T>, e: Event<T>)
    requires Valid(s)
    ensures Valid(Step(s, e))
  {
    WithoutOwner(s.timers, s.handle);
  }

  /**
   * A change of value or delay clears the pending timeout before scheduling a
   * new one for the new value; the state cell is not touched.
   */
  lemma RenderReschedules<T>(s: State<T>, v: T, d: nat)
    requires Valid(s) && s.mounted && (v != s.value || d != s.delay)
    ensures Step(s, Render(v, d)).timers == [Timer(s.nextHandle, s.now + d, v)]
    ensures Step(s, Render(v, d)).debounced == s.debounced
    ensures Step(s, Render(v, d)).value == v && Step(s, Render(v, d)).now == s.now
  {
    WithoutOwner(s.timers, s.handle);
  }

  /**
   * A tick either fires the one pending timeout, which writes the value of the
   * latest render and removes it, or only advances the clock. Nothing else
   * changes on a tick.
   */
  lemma TickFiresLatest<T>(s: State<T>)
    requires Valid(s)
    ensures var n := Step(s, Tick);
      if s.timers != [] && s.timers[0].due <= s.now + 1
      then Fired(s, Tick) == [s.value] && n == s.(now := s.now + 1, debounced := s.value, timers := [])
      else Fired(s, Tick) == [] && n == s.(now := s.now + 1)
  {
    if s.timers != [] {
      assert s.timers[1..] == [];
    }
  }

  lemma {:induction false} RunAppend<T>(s: State<T>, a: seq<Event<T>>, b: seq<Event<T>>)
    ensures Run(s, a + b) == Run(Run(s, a), b)
    decreases |a|
  {
    if a == [] {
      assert a + b == b;
    } else {
      var s1 := Step(s, a[0]);
      assert (a + b)[0] == a[0] && (a + b)[1..] == a[1..] + b;
      assert Run(s, a + b) == Run(s1, a[1..] + b);
      RunAppend(s1, a[1..], b);
    }
  }

  lemma {:induction false} UpdatesAppend<T>(s: State<T>, a: seq<Event<T>>, b: seq<Event<T>>)
    ensures Updates(s, a + b) == Updates(s, a) + Updates(Run(s, a), b)
    decreases |a|
  {
    if a == [] {
      assert a + b == b;
    } else {
      var s1 := Step(s, a[0]);
      assert (a + b)[0] == a[0] && (a + b)[1..] == a[1..] + b;
      assert Updates(s, a + b) == Fired(s, a[0]) + Updates(s1, a[1..] + b);
      assert Run(s, a) == Run(s1, a[1..]);
      UpdatesAppend(s1, a[1..], b);
    }
  }

  /** Ticks before the pending timeout is due only move the clock. */
  lemma {:induction false} TicksQuiet<T>(s: State<T>, n: nat)
    requires Valid(s) && |s.timers| == 1 && s.now + n < s.timers[0].due
    ensures Run(s, Ticks(n)) == s.(now := s.now + n)
    ensures Updates(s, Ticks(n)) == []
  {
    if n > 0 {
      var first: seq<Event<T>> := Ticks(n - 1);
      TicksQuiet(s, n - 1);
      var m := s.(now := s.now + (n - 1));
      assert Run(s, first) == m && Updates(s, first) == [];
      TickFiresLatest(m);
      assert Step(m, Tick) == s.(now := s.now + n) && Fired(m, Tick) == [];
      StepOne(m, Tick);
      assert Ticks(n) == first + [Tick];
      RunAppend(s, first, [Tick]);
      UpdatesAppend(s, first, [Tick]);
    }
  }

  /** Running one event is taking one step. */
  lemma StepOne<T>(s: State<T>, e: Event<T>)
    ensures Run(s, [e]) == Step(s, e) && Updates(s, [e]) == Fired(s, e)
  {
    assert [e][0] == e && [e][1..] == [];
  }

  /** A full quiet window: the pending timeout fires exactly once, on the tick that reaches it. */
  lemma TicksThroughDue<T>(s: State<T>, n: nat)
    requires Valid(s) && |s.timers| == 1 && s.timers[0].due == s.now + n && n >= 1
    ensures Run(s, Ticks(n)).debounced == s.value
    ensures Run(s, Ticks(n)).timers == []
    ensures Run(s, Ticks(n)).value == s.value && Run(s, Ticks(n)).mounted == s.mounted
    ensures Updates(s, Ticks(n)) == [s.value]
  {
    TicksQuiet(s, n - 1);
    RunAppend(s, Ticks(n - 1), [Tick]);
    UpdatesAppend(s, Ticks(n - 1), [Tick]);
    TickFiresLatest(s.(now := s.now + (n - 1)));
  }

  predicate ChangesEachTime<T(==)>(first: T, vs: seq<T>) {
    |vs| >= 1 && vs[0] != first && forall k :: 0 <= k < |vs| - 1 ==> vs[k] != vs[k + 1]
  }

  /**
   * A burst: each value is rendered, then fewer than `d` ticks pass before the
   * next value (gaps), and after the last value a full window of `d` ticks.
   */
  function Burst<T>(vs: seq<T>, gaps: seq<nat>, d: nat): seq<Event<T>>
    requires |vs| == |gaps| + 1
    decreases |gaps|
  {
    if |gaps| == 0 then [Render(vs[0], d)] + Ticks(d)
    else [Render(vs[0], d)] + Ticks(gaps[0]) + Burst(vs[1..], gaps[1..], d)
  }

  /**
   * Last value wins: over a burst whose values each arrive before the delay
   * has elapsed, the state cell is written exactly once, with the final value,
   * and no timeout is left pending.
   */
  lemma {:induction false} BurstLastWins<T>(s: State<T>, vs: seq<T>, gaps: seq<nat>, d: nat)
    requires Valid(s) && s.mounted && s.delay == d && d > 0
    requires |vs| == |gaps| + 1 && ChangesEachTime(s.value, vs)
    requires forall k :: 0 <= k < |gaps| ==> gaps[k] < d
    ensures Updates(s, Burst(vs, gaps, d)) == [vs[|vs| - 1]]
    ensures Run(s, Burst(vs, gaps, d)).debounced == vs[|vs| - 1]
    ensures Run(s, Burst(vs, gaps, d)).timers == []
    decreases |gaps|
  {
    var r := Render(vs[0], d);
    var s1 := Step(s, r);
    RenderReschedules(s, vs[0], d);
    StepValid(s, r);
    assert [r][0] == r && [r][1..] == [];
    assert Run(s, [r]) == Run(s1, []) == s1;
    assert Updates(s, [r]) == Fired(s, r) + Updates(s1, []) == [];
    if |gaps| == 0 {
      TicksThroughDue(s1, d);
      RunAppend(s, [r], Ticks(d));
      UpdatesAppend(s, [r], Ticks(d));
    } else {
      var quiet: seq<Event<T>> := Ticks(gaps[0]);
      TicksQuiet(s1, gaps[0]);
      var s2 := Run(s1, quiet);
      assert ChangesEachTime(s2.value, vs[1..]) by {
        forall k | 0 <= k < |vs[1..]| - 1 ensures vs[1..][k] != vs[1..][k + 1] {
          assert vs[1..][k] == vs[k + 1] && vs[1..][k + 1] == vs[k + 2];
        }
      }
      BurstLastWins(s2, vs[1..], gaps[1..], d);
      RunAppend(s, [r], quiet);
      UpdatesAppend(s, [r], quiet);
      RunAppend(s, [r] + quiet, Burst(vs[1..], gaps[1..], d));
      UpdatesAppend(s, [r] + quiet, Burst(vs[1..], gaps[1..], d));
      assert vs[1..][|vs[1..]| - 1] == vs[|vs| - 1];
    }
  }

  /** After unmounting, nothing ever writes the state cell again. */
  lemma {:induction false} UnmountedStable<T>(s: State<T>, es: seq<Event<T>>)
    requires Valid(s) && !s.mounted
    ensures Run(s, es).debounced == s.debounced
    ensures Run(s, es).timers == [] && !Run(s, es).mounted
    ensures Updates(s, es) == []
    decreases |es|
  {
    if es != [] {
      StepValid(s, es[0]);
      UnmountedStable(Step(s, es[0]), es[1..]);
    }
  }

  /** Cleanup clears the owned timeout: nothing is pending after unmounting. */
  lemma UnmountClears<T>(s: State<T>)
    requires Valid(s)
    ensures Step(s, Unmount).timers == [] && !Step(s, Unmount).mounted
    ensures Step(s, Unmount).debounced == s.debounced
  {
    WithoutOwner(s.timers, s.handle);
  }

  /**
   * The hook instance: the state cell and effect handle, together with the
   * host's timer queue and clock, updated in place by each event.
   */
  class Debouncer<T(==)> {
    var value: T
    var delay: nat
    var debounced: T
    var timers: seq<Timer<T>>
    var handle: nat
    var nextHandle: nat
    var now: nat
    var mounted: bool

    function Snapshot(): State<T>
      reads this
    {
      State(value, delay, debounced, timers, handle, nextHandle, now, mounted)
    }

    /** First render and mount effect: `useState(value)` and one `setTimeout`. */
    constructor(v: T, d: nat)
      ensures Snapshot() == Init(v, d) && Valid(Snapshot())
    {
      value, delay, debounced := v, d, v;
      timers := [Timer(0, d, v)];
      handle, nextHandle := 0, 1;
      now, mounted := 0, true;
    }

    /** A render with these arguments; the effect re-runs only when one of them changed. */
    method Render(v: T, d: nat)
      requires Valid(Snapshot())
      modifies this
      ensures Snapshot() == Step(old(Snapshot()), Event.Render(v, d)) && Valid(Snapshot())
    {
      StepValid(Snapshot(), Event.Render(v, d));
      if mounted && (v != value || d != delay) {
        timers := Without(timers, handle);
        timers := timers + [Timer(nextHandle, now + d, v)];
        handle := nextHandle;
        nextHandle := nextHandle + 1;
        value, delay := v, d;
      }
    }

    /** One unit of time passes; a due timeout runs `setDebouncedValue(value)`. */
    method Tick() returns (written: seq<T>)
      requires Valid(Snapshot())
      modifies this
      ensures Snapshot() == Step(old(Snapshot()), Event.Tick) && Valid(Snapshot())
      ensures written == Fired(old(Snapshot()), Event.Tick)
    {
      StepValid(Snapshot(), Event.Tick);
      now := now + 1;
      var due := DueBy(timers, now);
      written := Payloads(due);
      timers := Later(timers, now);
      if due != [] {
        debounced := due[|due| - 1].payload;
      }
    }

    /** The effect's cleanup on unmount: `clearTimeout(handler)`. */
    method Unmount()
      requires Valid(Snapshot())
      modifies this
      ensures Snapshot() == Step(old(Snapshot()), Event.Unmount) && Valid(Snapshot())
      ensures timers == [] && debounced == old(debounced)
    {
      StepValid(Snapshot(), Event.Unmount);
      UnmountClears(Snapshot());
      if mounted {
        timers := Without(timers, handle);
        mounted := false;
      }
    }
  }
}
