/** The frame-rate sampling state machine of the label's `tick()`: every
    display refresh supplies a timestamp; ticks are counted, and once at least
    one second has passed since the window opened, the rate over that window
    is emitted and a new window opens. */
module Sampling {
  import opened Wrappers

  /** The label's sampling fields: `count` ticks counted in the open window,
      and `lastTime`, the timestamp that opened it (0.0 means "no sample yet"). */
  datatype Sampler = Sampler(count: int, lastTime: real)

  /** The state of a freshly created label. */
  const Initial := Sampler(0, 0.0)

  /** Length, in seconds, a window must reach before it is reported. */
  const Interval: real := 1.0

  /** The rate over a window: `frames` ticks over `elapsed` seconds. */
  function Rate(frames: int, elapsed: real): real
    requires elapsed != 0.0
  {
    frames as real / elapsed
  }

  /** One tick at timestamp `ts`: the new state and the reading it emits.
      The window start only ever moves to the tick itself; an emitting tick
      empties the count and any other tick adds at most one to it. */
  function Step(s: Sampler, ts: real): (r: (Sampler, Option<real>))
    ensures r.0.lastTime == s.lastTime || r.0.lastTime == ts
    ensures r.1.Some? ==> r.0.count == 0
    ensures r.1.None? ==> s.count <= r.0.count <= s.count + 1
  {
    if s.lastTime == 0.0 then
      (Sampler(s.count, ts), None)
    else
      var count := s.count + 1;
      var diff := ts - s.lastTime;
      if diff < Interval then
        (Sampler(count, s.lastTime), None)
      else
        (Sampler(0, ts), Some(Rate(count, diff)))
  }

  /** The state after the ticks `tss`, fed in order from `s`, and the readings
      they emit, in order; a tick emits at most one reading. */
  function Run(s: Sampler, tss: seq<real>): (r: (Sampler, seq<real>))
    ensures |r.1| <= |tss|
    decreases |tss|
  {
    if tss == [] then (s, [])
    else
      var before := Run(s, tss[..|tss| - 1]);
      var after := Step(before.0, tss[|tss| - 1]);
      (after.0, before.1 + Emitted(after.1))
  }

  /** Feeding one more tick steps from the state the earlier ticks reached. */
  lemma RunAppend(s: Sampler, tss: seq<real>, ts: real)
    ensures Run(s, tss + [ts]) ==
      (Step(Run(s, tss).0, ts).0, Run(s, tss).1 + Emitted(Step(Run(s, tss).0, ts).1))
  {
    assert (tss + [ts])[..|tss|] == tss;
  }

  /** What every reachable state satisfies. */
  ghost predicate Inv(s: Sampler)
  {
    s.count >= 0 && (s.lastTime == 0.0 ==> s.count == 0)
  }

  /** Before any sample, a tick only records the timestamp. */
  lemma FirstTickInitialises(s: Sampler, ts: real)
    requires s.lastTime == 0.0
    ensures Step(s, ts) == (Sampler(s.count, ts), None)
  {
  }

  /** Within a window shorter than a second, a tick adds exactly one to the
      count and keeps the window open. */
  lemma TickAccumulates(s: Sampler, ts: real)
    requires s.lastTime != 0.0 && ts - s.lastTime < Interval
    ensures Step(s, ts) == (Sampler(s.count + 1, s.lastTime), None)
  {
  }

  /** A tick emits exactly when the window has been open for a second, and
      then the reading is the count including this tick over the elapsed time,
      the count is reset and the window reopens at this tick. */
  lemma EmitsIffWindowElapsed(s: Sampler, ts: real)
    ensures Step(s, ts).1.Some? <==> s.lastTime != 0.0 && ts - s.lastTime >= Interval
    ensures Step(s, ts).1.Some? ==>
      Step(s, ts).1.value * (ts - s.lastTime) == (s.count + 1) as real &&
      Step(s, ts).0 == Sampler(0, ts)
  {
  }

  /** From a state with a non-negative count, any reading is positive and at
      most the number of ticks the closed window counted. */
  lemma {:induction false} ReadingBounds(s: Sampler, ts: real)
    requires s.count >= 0
    ensures Step(s, ts).1.Some? ==>
      0.0 < Step(s, ts).1.value <= (s.count + 1) as real
  {
    if s.lastTime != 0.0 && ts - s.lastTime >= Interval {
      var c := (s.count + 1) as real;
      var diff := ts - s.lastTime;
      assert c / diff <= c by {
        assert c / diff * diff == c;
        assert c <= c * diff;
      }
    }
  }

  /** One tick keeps the invariant. */
  lemma {:induction false} StepKeepsInv(s: Sampler, ts: real)
    requires Inv(s)
    ensures Inv(Step(s, ts).0)
    ensures Step(s, ts).1.Some? ==> Step(s, ts).1.value > 0.0
  {
    ReadingBounds(s, ts);
  }

  /** From any reachable state, every state reached keeps the invariant and
      every reading emitted is positive. */
  lemma {:induction false} RunKeepsInv(s: Sampler, tss: seq<real>)
    requires Inv(s)
    ensures Inv(Run(s, tss).0)
    ensures forall i :: 0 <= i < |Run(s, tss).1| ==> Run(s, tss).1[i] > 0.0
    decreases |tss|
  {
    if tss != [] {
      var prefix := tss[..|tss| - 1];
      RunKeepsInv(s, prefix);
      StepKeepsInv(Run(s, prefix).0, tss[|tss| - 1]);
    }
  }

  /** While every tick lies less than a second after the window opened, no
      reading is emitted and the count grows by exactly the number of ticks:
      the count is the number of ticks since the window opened. */
  lemma {:induction false} WindowAccumulates(s: Sampler, tss: seq<real>)
    requires s.lastTime != 0.0
    requires forall i :: 0 <= i < |tss| ==> tss[i] - s.lastTime < Interval
    ensures Run(s, tss) == (Sampler(s.count + |tss|, s.lastTime), [])
    decreases |tss|
  {
    if tss != [] {
      var prefix := tss[..|tss| - 1];
      WindowAccumulates(s, prefix);
      var last := tss[|tss| - 1];
      assert last - s.lastTime < Interval;
      assert Run(s, prefix) == (Sampler(s.count + |prefix|, s.lastTime), []);
      assert Step(Sampler(s.count + |prefix|, s.lastTime), last)
        == (Sampler(s.count + |tss|, s.lastTime), None);
      assert Run(s, tss).0 == Sampler(s.count + |tss|, s.lastTime);
      assert Run(s, tss).1 == [];
    }
  }

  /** The very first tick of a label never emits, whatever its timestamp. */
  lemma {:induction false} FirstTickNeverEmits(ts: real)
    ensures Run(Initial, [ts]).1 == []
  {
    assert [ts][..0] == [];
  }

  /** A timestamp of 0.0 is taken for "no sample yet": a label fed 0.0, 0.5
      and 1.0 opens its window only at 0.5 and has emitted nothing by 1.0. */
  lemma ZeroTimestampDoesNotOpenWindow()
    ensures Run(Initial, [0.0, 0.5, 1.0]) == (Sampler(1, 0.5), [])
  {
    RunAppend(Initial, [], 0.0);
    assert Run(Initial, [0.0]) == (Initial, []);
    RunAppend(Initial, [0.0], 0.5);
    assert Run(Initial, [0.0, 0.5]) == (Sampler(0, 0.5), []);
    RunAppend(Initial, [0.0, 0.5], 1.0);
  }

  /** Ticks `t0 + p, t0 + 2p, ..., t0 + np`, a display refreshing every `p`
      seconds after a sample at `t0`. */
  function EvenTicks(t0: real, p: real, n: nat): (ts: seq<real>)
    ensures |ts| == n
  {
    if n == 0 then [] else EvenTicks(t0, p, n - 1) + [t0 + n as real * p]
  }

  lemma {:induction false} EvenTicksWithinWindow(t0: real, p: real, k: nat)
    requires t0 != 0.0 && p > 0.0 && k as real * p < Interval
    ensures Run(Sampler(0, t0), EvenTicks(t0, p, k)) == (Sampler(k, t0), [])
  {
    if k > 0 {
      var last := t0 + k as real * p;
      assert (k - 1) as real * p == k as real * p - p;
      EvenTicksWithinWindow(t0, p, k - 1);
      var ticks := EvenTicks(t0, p, k);
      assert ticks[..k - 1] == EvenTicks(t0, p, k - 1);
      assert ticks[k - 1] == last;
      assert Run(Sampler(0, t0), ticks[..k - 1]) == (Sampler(k - 1, t0), []);
      assert Step(Sampler(k - 1, t0), last) == (Sampler(k, t0), None);
      assert Run(Sampler(0, t0), ticks).0 == Sampler(k, t0);
      assert Run(Sampler(0, t0), ticks).1 == [];
    }
  }

  lemma RateOfEvenWindow(n: nat, p: real)
    requires n > 0 && p > 0.0
    ensures Rate(n, n as real * p) == 1.0 / p
  {
  }

  /** A display refreshing evenly every `p` seconds yields, once the window
      closes on the first tick at least a second after it opened, exactly one
      reading, equal to the refresh rate 1/p, and the count starts over. */
  lemma {:induction false} EvenRefreshReading(t0: real, p: real, n: nat)
    requires t0 != 0.0 && p > 0.0 && n >= 1
    requires (n - 1) as real * p < Interval <= n as real * p
    ensures Run(Sampler(0, t0), EvenTicks(t0, p, n)) == (Sampler(0, t0 + n as real * p), [1.0 / p])
  {
    EvenTicksWithinWindow(t0, p, n - 1);
    var ticks := EvenTicks(t0, p, n);
    var last := t0 + n as real * p;
    assert ticks[..n - 1] == EvenTicks(t0, p, n - 1);
    assert ticks[n - 1] == last;
    var elapsed := n as real * p;
    assert last - t0 == elapsed;
    RateOfEvenWindow(n, p);
    assert Run(Sampler(0, t0), ticks[..n - 1]) == (Sampler(n - 1, t0), []);
    assert Step(Sampler(n - 1, t0), last) == (Sampler(0, last), Some(1.0 / p));
    assert Run(Sampler(0, t0), ticks).0 == Sampler(0, last);
    assert Run(Sampler(0, t0), ticks).1 == [1.0 / p];
  }

  /** At 60 refreshes a second, one second of frames after the first sample
      reads exactly 60. */
  lemma SixtyHertzReadsSixty(t0: real)
    requires t0 != 0.0
    ensures Run(Sampler(0, t0), EvenTicks(t0, 1.0 / 60.0, 60)).1 == [60.0]
  {
    EvenRefreshReading(t0, 1.0 / 60.0, 60);
  }
}
