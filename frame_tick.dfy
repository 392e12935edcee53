/**
 * `useFrameTick`: a once-per-second scheduler driven by display frames. It keeps the next tick
 * index, the timestamp of the last tick (none before the first) and whether the frame callback
 * is active. Each processed frame either completes (when the index has reached `maxTicks`),
 * ticks (first frame, or at least 1000 ms after the last tick) or does nothing. The calls made
 * to `onTick` and, when the caller supplied one, to the optional `onComplete` are recorded as
 * an event log.
 */
module FrameTick {
  import opened Wrappers

  const TICK_INTERVAL_MS: real := 1000.0

  /** One call out of the scheduler: `onTick(index)` or `onComplete()`. */
  datatype TickEvent = Tick(index: int) | Complete

  /** The scheduler's state: the two refs, the callback's active flag, and the fixed `maxTicks`. */
  datatype TickerState = TickerState(maxTicks: int, tickIndex: int, lastTickTime: Option<real>, active: bool)

  /** The new state after one step and the calls that step made. */
  datatype Step = Step(state: TickerState, events: seq<TickEvent>)

  /** Freshly mounted: inactive, no tick yet, the index at `startAtIndex ?? 0`. */
  function InitialState(maxTicks: int, startAtIndex: Option<int>): (s: TickerState)
    ensures !s.active && s.lastTickTime.None? && s.maxTicks == maxTicks
    ensures startAtIndex.Some? ==> s.tickIndex == startAtIndex.value
    ensures startAtIndex.None? ==> s.tickIndex == 0
  {
    TickerState(maxTicks, startAtIndex.GetOr(0), None, false)
  }

  /**
   * The body of the frame callback. Exhausted: deactivate and complete, index untouched.
   * Otherwise tick (and advance the index) on the first frame or once a full second has passed
   * since the last tick, however long the gap; otherwise nothing.
   */
  function FrameCallback(s: TickerState, ts: real): (r: Step)
    ensures |r.events| <= 1 && r.state.maxTicks == s.maxTicks
    ensures s.tickIndex >= s.maxTicks ==>
      r.events == [Complete] && r.state == s.(active := false)
    ensures s.tickIndex < s.maxTicks && (s.lastTickTime.None? || ts - s.lastTickTime.value >= TICK_INTERVAL_MS) ==>
      r.events == [Tick(s.tickIndex)] && r.state == s.(tickIndex := s.tickIndex + 1, lastTickTime := Some(ts))
    ensures s.tickIndex < s.maxTicks && s.lastTickTime.Some? && ts - s.lastTickTime.value < TICK_INTERVAL_MS ==>
      r.events == [] && r.state == s
  {
    if s.tickIndex >= s.maxTicks then
      Step(s.(active := false), [Complete])
    else if s.lastTickTime.None? then
      Step(s.(lastTickTime := Some(ts), tickIndex := s.tickIndex + 1), [Tick(s.tickIndex)])
    else if ts - s.lastTickTime.value >= TICK_INTERVAL_MS then
      Step(s.(lastTickTime := Some(ts), tickIndex := s.tickIndex + 1), [Tick(s.tickIndex)])
    else
      Step(s, [])
  }

  /** A display frame: the callback runs only while it is active. */
  function Frame(s: TickerState, ts: real): (r: Step)
    ensures !s.active ==> r == Step(s, [])
    ensures s.active ==> r == FrameCallback(s, ts)
  {
    if s.active then FrameCallback(s, ts) else Step(s, [])
  }

  /** `start`, `stop` and `toggle` move only the active flag; `reset` only the index and the last tick time. */
  function SetActive(s: TickerState, active: bool): TickerState { s.(active := active) }

  function ResetState(s: TickerState): (r: TickerState)
    ensures r.tickIndex == 0 && r.lastTickTime.None? && r.active == s.active && r.maxTicks == s.maxTicks
  {
    s.(tickIndex := 0, lastTickTime := None)
  }

  /** What can happen to the scheduler: a frame at a timestamp, or one of the four controls. */
  datatype Op = FrameAt(ts: real) | Start | Stop | Toggle | Reset

  function Apply(s: TickerState, op: Op): Step {
    match op
    case FrameAt(ts) => Frame(s, ts)
    case Start => Step(SetActive(s, true), [])
    case Stop => Step(SetActive(s, false), [])
    case Toggle => Step(SetActive(s, !s.active), [])
    case Reset => Step(ResetState(s), [])
  }

  /** The state after a sequence of operations and all the calls made on the way, in order. */
  function Run(s: TickerState, ops: seq<Op>): (r: Step)
    ensures r.state.maxTicks == s.maxTicks
    decreases |ops|
  {
    if ops == [] then Step(s, [])
    else
      var before := Run(s, ops[..|ops| - 1]);
      var last := Apply(before.state, ops[|ops| - 1]);
      Step(last.state, before.events + last.events)
  }

  // ---------------------------------------------------------------------------------------
  // The scheduler as an object

  class FrameTicker {
    const maxTicks: int
    /** Whether the caller passed an `onComplete` callback; without one completion is silent. */
    const hasOnComplete: bool
    var tickIndex: int
    var lastTickTime: Option<real>
    var active: bool
    /** Every `onTick(index)` and `onComplete()` call made so far. */
    var events: seq<TickEvent>

    function State(): TickerState
      reads this
    {
      TickerState(maxTicks, tickIndex, lastTickTime, active)
    }

    constructor (maxTicks: int, startAtIndex: Option<int>, hasOnComplete: bool)
      ensures State() == InitialState(maxTicks, startAtIndex) && events == []
      ensures this.hasOnComplete == hasOnComplete
    {
      this.maxTicks := maxTicks;
      this.hasOnComplete := hasOnComplete;
      tickIndex := startAtIndex.GetOr(0);
      lastTickTime := None;
      active := false;
      events := [];
    }

    /** A display frame at timestamp `ts`; nothing happens while inactive. */
    method OnFrame(ts: real)
      modifies this
      ensures State() == Frame(old(State()), ts).state
      ensures events == old(events) + Calls(Frame(old(State()), ts).events, hasOnComplete)
    {
      if !active {
        return;
      }
      if tickIndex >= maxTicks {
        active := false;
        if hasOnComplete {
          events := events + [Complete];
        }
        return;
      }
      if lastTickTime.None? {
        lastTickTime := Some(ts);
        events := events + [Tick(tickIndex)];
        tickIndex := tickIndex + 1;
        return;
      }
      if ts - lastTickTime.value >= TICK_INTERVAL_MS {
        lastTickTime := Some(ts);
        events := events + [Tick(tickIndex)];
        tickIndex := tickIndex + 1;
      }
    }

    method Start()
      modifies this`active
      ensures State() == SetActive(old(State()), true)
    {
      active := true;
    }

    method Stop()
      modifies this`active
      ensures State() == SetActive(old(State()), false)
    {
      active := false;
    }

    method Toggle()
      modifies this`active
      ensures State() == SetActive(old(State()), !old(active))
    {
      active := !active;
    }

    method Reset()
      modifies this`tickIndex, this`lastTickTime
      ensures State() == ResetState(old(State()))
    {
      tickIndex := 0;
      lastTickTime := None;
    }

    /** Any operation, applied to the object, does what `Apply` says. */
    method Perform(op: Op)
      modifies this
      ensures State() == Apply(old(State()), op).state
      ensures events == old(events) + Calls(Apply(old(State()), op).events, hasOnComplete)
    {
      match op
      case FrameAt(ts) => OnFrame(ts);
      case Start => Start();
      case Stop => Stop();
      case Toggle => Toggle();
      case Reset => Reset();
    }

    /** Running a whole sequence of operations on the object follows `Run`. */
    method PerformAll(ops: seq<Op>)
      modifies this
      ensures State() == Run(old(State()), ops).state
      ensures events == old(events) + Calls(Run(old(State()), ops).events, hasOnComplete)
    {
      ghost var s0, e0 := State(), events;
      var i := 0;
      while i < |ops|
        invariant 0 <= i <= |ops|
        invariant State() == Run(s0, ops[..i]).state
        invariant events == e0 + Calls(Run(s0, ops[..i]).events, hasOnComplete)
      {
        ghost var prior := events;
        ghost var before := Run(s0, ops[..i]);
        var op := ops[i];
        Perform(op);
        i := i + 1;
        RunSnoc(s0, ops, i, before, op);
        LogConcat(e0, prior, events, before.events, Apply(before.state, op).events, hasOnComplete);
      }
      assert ops[..i] == ops;
    }
  }

  // ---------------------------------------------------------------------------------------
  // Properties of runs

  /** The events with every completion dropped: what a scheduler without `onComplete` calls. */
  function WithoutComplete(events: seq<TickEvent>): (r: seq<TickEvent>)
    ensures Complete !in r && |r| == |events| - CompleteCount(events)
    decreases |events|
  {
    if events == [] then []
    else
      var last := events[|events| - 1];
      WithoutComplete(events[..|events| - 1]) + (if last == Complete then [] else [last])
  }

  /**
   * The calls actually made for the events a run signals: `onTick` is always there, while
   * `onComplete` is optional and without it a completion calls nothing.
   */
  function Calls(events: seq<TickEvent>, hasOnComplete: bool): (r: seq<TickEvent>)
    ensures hasOnComplete ==> r == events
    ensures !hasOnComplete ==> Complete !in r && |r| == |events| - CompleteCount(events)
  {
    if hasOnComplete then events else WithoutComplete(events)
  }

  /** Appending the calls of two event lists one after the other appends the calls of both. */
  lemma LogConcat(log: seq<TickEvent>, prior: seq<TickEvent>, after: seq<TickEvent>,
                  first: seq<TickEvent>, second: seq<TickEvent>, hasOnComplete: bool)
    requires prior == log + Calls(first, hasOnComplete)
    requires after == prior + Calls(second, hasOnComplete)
    ensures after == log + Calls(first + second, hasOnComplete)
  {
    CallsAppend(first, second, hasOnComplete);
  }

  /** The run of the first `k` operations is the run of the first `k - 1` and then one step. */
  lemma RunSnoc(s: TickerState, ops: seq<Op>, k: nat, before: Step, op: Op)
    requires 0 < k <= |ops| && before == Run(s, ops[..k - 1]) && op == ops[k - 1]
    ensures Run(s, ops[..k]) == Step(Apply(before.state, op).state, before.events + Apply(before.state, op).events)
  {
    assert ops[..k][..k - 1] == ops[..k - 1];
  }

  lemma {:induction false} WithoutCompleteAppend(a: seq<TickEvent>, b: seq<TickEvent>)
    ensures WithoutComplete(a + b) == WithoutComplete(a) + WithoutComplete(b)
    decreases |b|
  {
    if b == [] {
      assert a + b == a;
    } else {
      var n := |b| - 1;
      var tail := if b[n] == Complete then [] else [b[n]];
      WithoutCompleteAppend(a, b[..n]);
      assert (a + b)[..|a + b| - 1] == a + b[..n];
      assert WithoutComplete(a + b) == WithoutComplete(a + b[..n]) + tail;
      assert WithoutComplete(b) == WithoutComplete(b[..n]) + tail;
    }
  }

  /** The calls of a concatenation are the calls of its parts, with or without `onComplete`. */
  lemma CallsAppend(a: seq<TickEvent>, b: seq<TickEvent>, hasOnComplete: bool)
    ensures Calls(a + b, hasOnComplete) == Calls(a, hasOnComplete) + Calls(b, hasOnComplete)
  {
    if !hasOnComplete {
      WithoutCompleteAppend(a, b);
    }
  }

  /** Leaving `onComplete` out changes none of the `onTick` calls. */
  lemma {:induction false} WithoutCompleteKeepsTicks(events: seq<TickEvent>)
    ensures TickIndices(WithoutComplete(events)) == TickIndices(events)
    decreases |events|
  {
    if events != [] {
      var n := |events| - 1;
      WithoutCompleteKeepsTicks(events[..n]);
      var last := events[n];
      TickIndicesAppend(WithoutComplete(events[..n]), if last == Complete then [] else [last]);
    }
  }


  /** The indices passed to `onTick`, in order. */
  function TickIndices(events: seq<TickEvent>): seq<int>
    decreases |events|
  {
    if events == [] then []
    else TickIndices(events[..|events| - 1]) + (if events[|events| - 1].Tick? then [events[|events| - 1].index] else [])
  }

  function CompleteCount(events: seq<TickEvent>): nat
    decreases |events|
  {
    if events == [] then 0
    else CompleteCount(events[..|events| - 1]) + (if events[|events| - 1] == Complete then 1 else 0)
  }

  /** The run of consecutive integers `from`, `from + 1`, .., `to - 1`. */
  function Range(from: int, to: int): (r: seq<int>)
    requires from <= to
    ensures |r| == to - from && forall k :: 0 <= k < |r| ==> r[k] == from + k
  {
    seq(to - from, k requires 0 <= k < to - from => from + k)
  }

  predicate NoReset(ops: seq<Op>) { forall k :: 0 <= k < |ops| ==> !ops[k].Reset? }

  predicate OnlyFrames(ops: seq<Op>) { forall k :: 0 <= k < |ops| ==> ops[k].FrameAt? }

  lemma TickIndicesAppend(a: seq<TickEvent>, b: seq<TickEvent>)
    ensures TickIndices(a + b) == TickIndices(a) + TickIndices(b)
    decreases |b|
  {
    if b == [] {
      assert a + b == a;
    } else {
      var n := |b| - 1;
      TickIndicesAppend(a, b[..n]);
      assert (a + b)[..|a + b| - 1] == a + b[..n];
    }
  }

  lemma CompleteCountAppend(a: seq<TickEvent>, b: seq<TickEvent>)
    ensures CompleteCount(a + b) == CompleteCount(a) + CompleteCount(b)
    decreases |b|
  {
    if b == [] {
      assert a + b == a;
    } else {
      var n := |b| - 1;
      CompleteCountAppend(a, b[..n]);
      assert (a + b)[..|a + b| - 1] == a + b[..n];
    }
  }

  /**
   * Without a reset, the indices passed to `onTick` are exactly the consecutive integers from the
   * starting index up to (not including) the final index: none skipped, none repeated, and the
   * index never moves back — stopping and resuming continue where they left off.
   */
  lemma {:induction false} TicksAreConsecutive(s: TickerState, ops: seq<Op>)
    requires NoReset(ops)
    ensures s.tickIndex <= Run(s, ops).state.tickIndex
    ensures TickIndices(Run(s, ops).events) == Range(s.tickIndex, Run(s, ops).state.tickIndex)
    decreases |ops|
  {
    if ops != [] {
      var front := ops[..|ops| - 1];
      assert NoReset(front) by {
        forall k | 0 <= k < |front| ensures !front[k].Reset? { assert front[k] == ops[k]; }
      }
      TicksAreConsecutive(s, front);
      var before := Run(s, front);
      var op := ops[|ops| - 1];
      var last := Apply(before.state, op);
      assert Run(s, ops) == Step(last.state, before.events + last.events);
      assert !op.Reset?;
      StepTicks(before.state, op);
      TickIndicesAppend(before.events, last.events);
      RangeAppend(s.tickIndex, before.state.tickIndex, last.state.tickIndex);
    }
  }

  /** One operation other than a reset calls `onTick` with the current index at most once, advancing past it. */
  lemma StepTicks(st: TickerState, op: Op)
    requires !op.Reset?
    ensures st.tickIndex <= Apply(st, op).state.tickIndex
    ensures TickIndices(Apply(st, op).events) == Range(st.tickIndex, Apply(st, op).state.tickIndex)
  {
    var last := Apply(st, op);
    var t := st.tickIndex;
    if last.events == [Tick(t)] {
      assert last.events[..0] == [];
      assert TickIndices(last.events) == [t];
    } else {
      assert last.state.tickIndex == t;
      if last.events != [] {
        assert last.events == [Complete];
        assert last.events[..0] == [];
      }
    }
  }

  lemma RangeAppend(a: int, b: int, c: int)
    requires a <= b <= c
    ensures Range(a, b) + Range(b, c) == Range(a, c)
  {
  }

  /** Every index passed to `onTick` is below `maxTicks`. */
  lemma {:induction false} TicksBelowMax(s: TickerState, ops: seq<Op>)
    ensures forall k :: 0 <= k < |Run(s, ops).events| && Run(s, ops).events[k].Tick? ==>
      Run(s, ops).events[k].index < s.maxTicks
    decreases |ops|
  {
    if ops != [] {
      TicksBelowMax(s, ops[..|ops| - 1]);
    }
  }

  /** While the callback is inactive, frames change nothing and call nothing. */
  lemma {:induction false} InactiveFramesInert(s: TickerState, ops: seq<Op>)
    requires !s.active && OnlyFrames(ops)
    ensures Run(s, ops) == Step(s, [])
    decreases |ops|
  {
    if ops != [] {
      var front := ops[..|ops| - 1];
      assert OnlyFrames(front) by {
        forall k | 0 <= k < |front| ensures front[k].FrameAt? { assert front[k] == ops[k]; }
      }
      InactiveFramesInert(s, front);
      assert ops[|ops| - 1].FrameAt?;
    }
  }

  /**
   * Over any run of frames, `onComplete` is called at most once; once it has been called the
   * callback is inactive and it is the last call made.
   */
  lemma {:induction false} CompletesOnce(s: TickerState, ops: seq<Op>)
    requires OnlyFrames(ops)
    ensures CompleteCount(Run(s, ops).events) <= 1
    ensures CompleteCount(Run(s, ops).events) == 1 ==>
      !Run(s, ops).state.active && Run(s, ops).events[|Run(s, ops).events| - 1] == Complete
    decreases |ops|
  {
    if ops != [] {
      var front := ops[..|ops| - 1];
      assert OnlyFrames(front) by {
        forall k | 0 <= k < |front| ensures front[k].FrameAt? { assert front[k] == ops[k]; }
      }
      CompletesOnce(s, front);
      var before := Run(s, front);
      var last := Apply(before.state, ops[|ops| - 1]);
      CompleteCountAppend(before.events, last.events);
      assert ops[|ops| - 1].FrameAt?;
      if CompleteCount(before.events) == 1 {
        assert last == Step(before.state, []);
        assert before.events + last.events == before.events;
      } else if last.events != [] {
        assert CompleteCount(last.events) == (if last.events[0] == Complete then 1 else 0) by {
          assert last.events[..0] == [];
        }
      }
    }
  }

  /** After `reset` the next processed frame ticks at once, with index 0, whatever the timestamp. */
  lemma ResetTicksAtOnce(s: TickerState, ts: real)
    requires s.active && s.maxTicks > 0
    ensures Run(s, [Reset, FrameAt(ts)]).events == [Tick(0)]
    ensures Run(s, [Reset, FrameAt(ts)]).state.tickIndex == 1
  {
    assert [Reset, FrameAt(ts)][..1] == [Reset];
    assert [Reset][..0] == [];
  }

  /** Stopping keeps the index and the last tick time; starting again changes only the flag. */
  lemma StopStartKeepsPosition(s: TickerState, frames: seq<Op>)
    requires OnlyFrames(frames)
    ensures Run(s, [Stop] + frames + [Start]).state == s.(active := true)
    ensures Run(s, [Stop] + frames + [Start]).events == []
  {
    var ops := [Stop] + frames + [Start];
    assert ops[..|ops| - 1] == [Stop] + frames;
    RunConcat(s, [Stop], frames);
    assert [Stop][..0] == [];
    InactiveFramesInert(s.(active := false), frames);
  }

  /** Running two sequences one after the other is running their concatenation. */
  lemma {:induction false} RunConcat(s: TickerState, a: seq<Op>, b: seq<Op>)
    ensures Run(s, a + b).state == Run(Run(s, a).state, b).state
    ensures Run(s, a + b).events == Run(s, a).events + Run(Run(s, a).state, b).events
    decreases |b|
  {
    if b == [] {
      assert a + b == a;
    } else {
      var n := |b| - 1;
      RunConcat(s, a, b[..n]);
      assert (a + b)[..|a + b| - 1] == a + b[..n];
      assert (a + b)[|a + b| - 1] == b[n];
    }
  }

  // ---------------------------------------------------------------------------------------
  // Scenarios, driven through the object as a caller would

  /** Frames at 1000, 1500, 2000, 2500 and 3000 ms after `start` tick 0, 1, 2. */
  method TicksEverySecond() returns (calls: seq<TickEvent>)
    ensures calls == [Tick(0), Tick(1), Tick(2)]
  {
    var t := new FrameTicker(10, None, true);
    t.Start();
    t.OnFrame(1000.0);
    t.OnFrame(1500.0);
    t.OnFrame(2000.0);
    t.OnFrame(2500.0);
    t.OnFrame(3000.0);
    calls := t.events;
  }

  /** With `maxTicks` 1: one tick, then completion, then nothing. */
  method SingleTickCompletes() returns (calls: seq<TickEvent>, active: bool)
    ensures calls == [Tick(0), Complete] && !active
  {
    var t := new FrameTicker(1, None, true);
    t.Start();
    t.OnFrame(1000.0);
    t.OnFrame(2000.0);
    t.OnFrame(3000.0);
    calls, active := t.events, t.active;
  }

  /** Without `onComplete`, `maxTicks` 1 ticks once and then stops silently. */
  method CompletesSilentlyWithoutCallback() returns (calls: seq<TickEvent>, active: bool)
    ensures calls == [Tick(0)] && !active
  {
    var t := new FrameTicker(1, None, false);
    t.Start();
    t.OnFrame(1000.0);
    t.OnFrame(2000.0);
    calls, active := t.events, t.active;
  }

  /** Starting at an index at or past `maxTicks` completes on the first frame without a tick. */
  method StartPastMaxCompletes() returns (calls: seq<TickEvent>)
    ensures calls == [Complete]
  {
    var t := new FrameTicker(3, Some(5), true);
    t.Start();
    t.OnFrame(0.0);
    t.OnFrame(1000.0);
    calls := t.events;
  }

  /** Ticks 3 and 4 with `startAtIndex` 3 and `maxTicks` 5, then completion. */
  method StartAtIndexRespected() returns (calls: seq<TickEvent>)
    ensures calls == [Tick(3), Tick(4), Complete]
  {
    var t := new FrameTicker(5, Some(3), true);
    t.Start();
    t.OnFrame(1000.0);
    t.OnFrame(2000.0);
    t.OnFrame(3000.0);
    t.OnFrame(4000.0);
    calls := t.events;
  }

  /** Stopped frames are ignored and the first frame after resuming ticks the next index. */
  method ResumesWhereStopped() returns (calls: seq<TickEvent>)
    ensures calls == [Tick(0), Tick(1), Tick(2)]
  {
    var t := new FrameTicker(10, None, true);
    t.Start();
    t.OnFrame(1000.0);
    t.OnFrame(2000.0);
    t.Stop();
    t.OnFrame(3000.0);
    t.OnFrame(4000.0);
    t.Start();
    t.OnFrame(10000.0);
    calls := t.events;
  }

  /** After stop, reset and start, the next frame ticks index 0 at once, only 100 ms after the last tick. */
  method ResetAllowsImmediateTick() returns (calls: seq<TickEvent>)
    ensures calls == [Tick(0), Tick(0)]
  {
    var t := new FrameTicker(10, None, true);
    t.Start();
    t.OnFrame(1000.0);
    t.OnFrame(1500.0);
    t.Stop();
    t.Reset();
    t.Start();
    t.OnFrame(1600.0);
    calls := t.events;
  }
}
