/** The label itself: its sampling fields, its frame and the attributed text
    it shows. `Tick` is one display-link callback, `EndDrag` the end of a pan
    gesture. */
module Label {
  import opened Wrappers
  import opened Sampling
  import opened Presentation
  import opened Geometry

  class FPSLabel {
    var count: int
    var lastTime: real
    var frame: Rect
    var attributedText: AttributedText?

    /** Every timestamp the label has sampled, the readings it has emitted,
        and the timestamps of the ticks counted in the open window. */
    ghost var History: seq<real>
    ghost var Readings: seq<real>
    ghost var Window: seq<real>

    ghost function State(): Sampler
      reads this
    {
      Sampler(count, lastTime)
    }

    /** The fields, the history, the open window and the readings agree as
        `Tracks` says. */
    ghost predicate Valid()
      reads this
    {
      Tracks(History, Window, Readings, State())
    }

    /** `init(frame:)`. */
    constructor (f: Rect)
      ensures Valid()
      ensures frame == InitialFrame(f) && count == 0 && lastTime == 0.0
      ensures attributedText == null && History == [] && Readings == []
    {
      frame := InitialFrame(f);
      count, lastTime := 0, 0.0;
      attributedText := null;
      History, Readings, Window := [], [], [];
    }

    /** `tick()`, with `link` the display link's timestamp, or None when the
        label has no display link: without one nothing changes; with one the
        timestamp is sampled and, when a reading is emitted, the label's text
        is replaced by the rendered reading. */
    method Tick(link: Option<real>) returns (r: Option<real>)
      requires Valid()
      modifies this
      ensures Valid()
      ensures frame == old(frame)
      ensures link.None? ==>
        r == None && State() == old(State()) && History == old(History) &&
        Readings == old(Readings) && Window == old(Window)
      ensures link.Some? ==>
        (State(), r) == Step(old(State()), link.value) &&
        History == old(History) + [link.value] && Readings == old(Readings) + Emitted(r)
      ensures r.Some? ==> 0.0 < r.value <= old(count + 1) as real && Window == []
      ensures link.Some? && r.None? ==>
        Window == if old(lastTime) == 0.0 then old(Window) else old(Window) + [link.value]
      ensures r.None? ==> attributedText == old(attributedText)
      ensures r.Some? ==>
        attributedText != null && fresh(attributedText) && attributedText.Valid() &&
        attributedText.text == DisplayText(r.value) &&
        (forall i :: 0 <= i < |attributedText.text| ==>
          attributedText.foreground[i] ==
            Some(if i < |attributedText.text| - 3 then GradientColor(r.value) else White)) &&
        (forall i :: 0 <= i < |attributedText.text| ==>
          attributedText.font[i] == Some(if i == |attributedText.text| - 4 then SubFont else MainFont))
    {
      if link.None? {
        return None;
      }
      r := Sample(link.value);
      if r.Some? {
        attributedText := Render(r.value);
      }
    }

    /** The sampling part of `tick()` for the display link's timestamp: the
        fields take the state `Step` gives, the timestamp joins the history and
        an emitted reading joins the readings. */
    method Sample(timestamp: real) returns (r: Option<real>)
      requires Valid()
      modifies this
      ensures Valid()
      ensures (State(), r) == Step(old(State()), timestamp)
      ensures History == old(History) + [timestamp] && Readings == old(Readings) + Emitted(r)
      ensures r.Some? ==> 0.0 < r.value <= old(count + 1) as real && Window == []
      ensures r.None? ==>
        Window == if old(lastTime) == 0.0 then old(Window) else old(Window) + [timestamp]
      ensures frame == old(frame) && attributedText == old(attributedText)
    {
      ghost var h, w, readings, before := History, Window, Readings, State();
      History := History + [timestamp];
      if lastTime == 0.0 {
        TracksFirstSample(h, w, readings, before, timestamp);
        lastTime := timestamp;
        return None;
      }

      count := count + 1;
      Window := Window + [timestamp];
      var diff := timestamp - lastTime;
      if diff < Interval {
        TracksCounted(h, w, readings, before, timestamp);
        return None;
      }
      TracksClosed(h, w, readings, before, timestamp);
      ReadingBounds(before, timestamp);
      lastTime := timestamp;
      var fps := Rate(count, diff);
      count := 0;
      Window := [];
      Readings := Readings + [fps];
      r := Some(fps);
    }

    /** The end of a drag on a screen of the given size: the frame settles
        against the side whose half of the screen holds its origin, and
        between the paddings; nothing else changes. */
    method EndDrag(screen: Size)
      requires Valid()
      modifies this
      ensures Valid()
      ensures frame == DragEndFrame(old(frame), screen)
      ensures State() == old(State()) && attributedText == old(attributedText)
      ensures History == old(History) && Readings == old(Readings) && Window == old(Window)
    {
      frame := DragEndFrame(frame, screen);
    }
  }

  /** The ticks counted in the open window are the tail of the history
      after the tick that opened it, one per count; before the first sample
      there are none. */
  ghost predicate OpenWindow(history: seq<real>, window: seq<real>, s: Sampler)
  {
    s.count == |window| &&
    |window| <= |history| && window == history[|history| - |window|..] &&
    (s.lastTime != 0.0 ==>
      |window| < |history| && history[|history| - |window| - 1] == s.lastTime) &&
    (s.lastTime == 0.0 ==> window == [])
  }

  /** Every tick of the open window lies less than a second after it opened. */
  ghost predicate WithinWindow(window: seq<real>, start: real)
  {
    forall i :: 0 <= i < |window| ==> window[i] - start < Interval
  }

  ghost predicate AllPositive(readings: seq<real>)
  {
    forall i :: 0 <= i < |readings| ==> readings[i] > 0.0
  }

  /** A label's state agrees with its past: the sampling fields and the
      readings are what feeding the whole history to a new label gives, the
      open window is as `OpenWindow` and `WithinWindow` say, and every reading
      is positive. */
  ghost predicate Tracks(history: seq<real>, window: seq<real>, readings: seq<real>, s: Sampler)
  {
    Run(Initial, history) == (s, readings) &&
    OpenWindow(history, window, s) &&
    WithinWindow(window, s.lastTime) &&
    AllPositive(readings)
  }

  /** A state that agrees with its past keeps the sampling invariant: the
      count is non-negative, and zero before the first sample. */
  lemma TracksInv(history: seq<real>, window: seq<real>, readings: seq<real>, s: Sampler)
    requires Tracks(history, window, readings, s)
    ensures Inv(s)
  {
  }

  /** Before the first sample, a tick joins the history and opens the window
      at itself; the window stays empty. */
  lemma {:induction false} TracksFirstSample(history: seq<real>, window: seq<real>,
                                             readings: seq<real>, s: Sampler, ts: real)
    requires Tracks(history, window, readings, s) && s.lastTime == 0.0
    ensures Tracks(history + [ts], window, readings, Sampler(s.count, ts))
  {
    var h := history + [ts];
    RunAppend(Initial, history, ts);
    assert readings + Emitted<real>(None) == readings;
    assert h[|h| - 0..] == [];
  }

  /** A tick less than a second into the window joins both the history and
      the window, and is counted. */
  lemma {:induction false} TracksCounted(history: seq<real>, window: seq<real>,
                                         readings: seq<real>, s: Sampler, ts: real)
    requires Tracks(history, window, readings, s)
    requires s.lastTime != 0.0 && ts - s.lastTime < Interval
    ensures Tracks(history + [ts], window + [ts], readings, Sampler(s.count + 1, s.lastTime))
  {
    var h, w := history + [ts], window + [ts];
    RunAppend(Initial, history, ts);
    assert readings + Emitted<real>(None) == readings;
    assert h[|h| - |w|..] == history[|history| - |window|..] + [ts];
    assert h[|h| - |w| - 1] == history[|history| - |window| - 1];
  }

  /** A tick a second or more into the window closes it: its reading joins the
      readings and a new, empty window opens at the tick. */
  lemma {:induction false} TracksClosed(history: seq<real>, window: seq<real>,
                                        readings: seq<real>, s: Sampler, ts: real)
    requires Tracks(history, window, readings, s)
    requires s.lastTime != 0.0 && ts - s.lastTime >= Interval
    ensures Tracks(history + [ts], [], readings + [Rate(s.count + 1, ts - s.lastTime)], Sampler(0, ts))
  {
    var h := history + [ts];
    RunAppend(Initial, history, ts);
    ReadingBounds(s, ts);
    assert h[|h| - 0..] == [];
  }

  /** One tick keeps the agreement: the tick joins the history, its reading
      (if any) the readings, and the window gains the tick when it was
      counted, or empties when it closed. */
  lemma {:induction false} TracksStep(history: seq<real>, window: seq<real>, readings: seq<real>,
                                      s: Sampler, ts: real)
    requires Tracks(history, window, readings, s)
    ensures var (next, reading) := Step(s, ts);
      Tracks(history + [ts],
             if reading.Some? then [] else if s.lastTime == 0.0 then window else window + [ts],
             readings + Emitted(reading), next)
  {
    if s.lastTime == 0.0 {
      TracksFirstSample(history, window, readings, s, ts);
    } else if ts - s.lastTime < Interval {
      TracksCounted(history, window, readings, s, ts);
    } else {
      TracksClosed(history, window, readings, s, ts);
    }
  }
}
