/**
 * `useTimer(config)`: the play / pause / reset / toggle state machine over a compiled timeline.
 * The hook keeps the state (idle, running, paused, completed), the index of the frame on
 * screen, the timestamp of the last `play` and the running time banked at the last `pause`.
 * A display frame while running looks up the frame at the elapsed running time and moves to
 * completed once the last frame is reached.
 *
 * The hook's React state is modelled as the fields of `PlayPauseTimer`, each update taking
 * effect at once; `performance.now()` and the frame timestamp become parameters in
 * milliseconds, and the calls made to the optional `onFrameChange` / `onComplete` callbacks,
 * when the caller passed them, become recorded events.
 */
module TimerHook {
  import opened Wrappers
  import TL = TimelineCompiler

  datatype TimerState = Idle | Running | Paused | Completed

  /** The four pieces of hook state. */
  datatype HookState = HookState(
    state: TimerState,
    currentFrameIndex: int,
    startTimestamp: Option<real>,
    pausedElapsed: real)

  /** What the hook reports through its callbacks. */
  datatype HookEvent = FrameChange(frame: TL.TimelineFrame, index: nat) | Complete

  datatype Step = Step(next: HookState, events: seq<HookEvent>)

  function InitialState(): (s: HookState)
    ensures s.state == Idle && s.currentFrameIndex == 0
    ensures s.startTimestamp.None? && s.pausedElapsed == 0.0
  {
    HookState(Idle, 0, None, 0.0)
  }

  /** `play()` at time `now`; after completion it starts again from the first frame. */
  function PlayStep(s: HookState, now: real): (r: HookState)
    ensures r.state == Running && r.startTimestamp == Some(now)
    ensures s.state == Completed ==> r.currentFrameIndex == 0 && r.pausedElapsed == 0.0
    ensures s.state != Completed ==> r.currentFrameIndex == s.currentFrameIndex && r.pausedElapsed == s.pausedElapsed
  {
    var base := if s.state == Completed then s.(currentFrameIndex := 0, pausedElapsed := 0.0) else s;
    base.(startTimestamp := Some(now), state := Running)
  }

  /** `pause()` at time `now`: banks the time run since the last `play`; only acts while running. */
  function PauseStep(s: HookState, now: real): (r: HookState)
    ensures s.state == Running && s.startTimestamp.Some? ==>
      && r.state == Paused && r.startTimestamp.None?
      && r.pausedElapsed == s.pausedElapsed + (now - s.startTimestamp.value)
      && r.currentFrameIndex == s.currentFrameIndex
    ensures !(s.state == Running && s.startTimestamp.Some?) ==> r == s
  {
    if s.state == Running && s.startTimestamp.Some? then
      s.(pausedElapsed := now - s.startTimestamp.value + s.pausedElapsed, startTimestamp := None, state := Paused)
    else s
  }

  /** `toggle()`: pause while running, play otherwise. */
  function ToggleStep(s: HookState, now: real): (r: HookState)
    ensures s.state == Running ==> r == PauseStep(s, now)
    ensures s.state != Running ==> r == PlayStep(s, now) && r.state == Running
  {
    if s.state == Running then PauseStep(s, now) else PlayStep(s, now)
  }

  /** The running time that a display frame at `ts` is measured against. */
  function ElapsedAt(s: HookState, ts: real): real {
    if s.state == Running && s.startTimestamp.Some? then ts - s.startTimestamp.value + s.pausedElapsed
    else s.pausedElapsed
  }

  /**
   * The frame callback at timestamp `ts`. While running, the index becomes
   * `getFrameAtTime(timeline, elapsed).index`; when that differs from the index on screen the
   * new frame (if there is one) is reported and, from the last index on, the timer completes.
   */
  function FrameStep(timeline: seq<TL.TimelineFrame>, s: HookState, ts: real): (r: Step)
    ensures !(s.state == Running && s.startTimestamp.Some?) ==> r == Step(s, [])
    ensures s.state == Running && s.startTimestamp.Some? ==>
      r.next.currentFrameIndex == TL.FrameAtTime(timeline, ElapsedAt(s, ts)).index
    ensures r.next.startTimestamp == s.startTimestamp && r.next.pausedElapsed == s.pausedElapsed
    ensures r.next.currentFrameIndex == s.currentFrameIndex ==> r == Step(s, [])
    ensures r.next.currentFrameIndex != s.currentFrameIndex ==>
      && (r.next.state == Completed <==> r.next.currentFrameIndex >= |timeline| - 1)
      && (r.next.state != Completed ==> r.next.state == Running)
      && (Complete in r.events <==> r.next.state == Completed)
    ensures r.next.currentFrameIndex != s.currentFrameIndex && 0 <= r.next.currentFrameIndex < |timeline| ==>
      r.events == [FrameChange(timeline[r.next.currentFrameIndex], r.next.currentFrameIndex)]
        + (if r.next.state == Completed then [Complete] else [])
    ensures r.next.currentFrameIndex != s.currentFrameIndex && !(0 <= r.next.currentFrameIndex < |timeline|) ==>
      r.events == (if r.next.state == Completed then [Complete] else [])
    ensures |r.events| <= 2
  {
    if !(s.state == Running && s.startTimestamp.Some?) then Step(s, [])
    else
      var elapsedMs := ts - s.startTimestamp.value + s.pausedElapsed;
      var index := TL.FrameAtTime(timeline, elapsedMs).index;
      if index == s.currentFrameIndex then Step(s, [])
      else
        var changed := if 0 <= index < |timeline| then [FrameChange(timeline[index], index)] else [];
        if index >= |timeline| - 1 then Step(s.(currentFrameIndex := index, state := Completed), changed + [Complete])
        else Step(s.(currentFrameIndex := index), changed)
  }

  /** A frame that moves the index to `index` reports its frame, and completion from the last one on. */
  lemma FrameStepMoves(timeline: seq<TL.TimelineFrame>, s: HookState, ts: real, elapsedMs: real, index: int)
    requires timeline != [] && s.state == Running && s.startTimestamp.Some?
    requires elapsedMs == ts - s.startTimestamp.value + s.pausedElapsed
    requires index == TL.FrameAtTime(timeline, elapsedMs).index && index != s.currentFrameIndex
    ensures 0 <= index < |timeline|
    ensures FrameStep(timeline, s, ts).next
        == s.(currentFrameIndex := index, state := if index >= |timeline| - 1 then Completed else s.state)
    ensures FrameStep(timeline, s, ts).events
        == [FrameChange(timeline[index], index)] + (if index >= |timeline| - 1 then [Complete] else [])
  {
  }

  /**
   * The calls the hook makes for the events a frame reports: both callbacks are optional, and
   * an event whose callback the caller left out calls nothing.
   */
  function Reported(events: seq<HookEvent>, hasOnFrameChange: bool, hasOnComplete: bool): (r: seq<HookEvent>)
    ensures |r| <= |events|
    ensures hasOnFrameChange && hasOnComplete ==> r == events
    ensures forall e :: e in r <==> e in events && (if e.Complete? then hasOnComplete else hasOnFrameChange)
    decreases |events|
  {
    if events == [] then []
    else
      var first := events[0];
      var kept := if first.Complete? then hasOnComplete else hasOnFrameChange;
      (if kept then [first] else []) + Reported(events[1..], hasOnFrameChange, hasOnComplete)
  }

  /** What is reported for a frame change, with or without completion, under either callback. */
  lemma ReportedShape(change: HookEvent, completes: bool, hasOnFrameChange: bool, hasOnComplete: bool)
    requires change.FrameChange?
    ensures Reported([change] + (if completes then [Complete] else []), hasOnFrameChange, hasOnComplete)
      == (if hasOnFrameChange then [change] else []) + (if completes && hasOnComplete then [Complete] else [])
  {
    var events := [change] + (if completes then [Complete] else []);
    assert events[1..] == if completes then [Complete] else [];
  }

  /** A frame that reports nothing adds nothing to the log. */
  lemma ReportedNothing(log: seq<HookEvent>, hasOnFrameChange: bool, hasOnComplete: bool)
    ensures log + Reported([], hasOnFrameChange, hasOnComplete) == log
  {
    assert Reported([], hasOnFrameChange, hasOnComplete) == [];
  }

  /** The log after a frame change holds the calls `Reported` gives for its events. */
  lemma ReportedLog(log: seq<HookEvent>, after: seq<HookEvent>, change: HookEvent, completes: bool,
                    hasOnFrameChange: bool, hasOnComplete: bool)
    requires change.FrameChange?
    requires after == log + ((if hasOnFrameChange then [change] else []) + (if completes && hasOnComplete then [Complete] else []))
    ensures after == log + Reported([change] + (if completes then [Complete] else []), hasOnFrameChange, hasOnComplete)
  {
    ReportedShape(change, completes, hasOnFrameChange, hasOnComplete);
  }

  /** `timeline[currentFrameIndex] ?? null`. */
  function CurrentFrame(timeline: seq<TL.TimelineFrame>, index: int): (f: Option<TL.TimelineFrame>)
    ensures f.Some? <==> 0 <= index < |timeline|
    ensures f.Some? ==> f.value == timeline[index]
  {
    if 0 <= index < |timeline| then Some(timeline[index]) else None
  }

  /**
   * What the hook keeps true on a non-empty timeline: the index points into the timeline, a
   * start timestamp is held exactly while running or completed, idle is the initial state, and
   * completed sits on the last frame.
   */
  predicate Inv(timeline: seq<TL.TimelineFrame>, s: HookState) {
    && (timeline != [] ==> 0 <= s.currentFrameIndex < |timeline|)
    && ((s.state == Running || s.state == Completed) <==> s.startTimestamp.Some?)
    && (s.state == Idle ==> s == InitialState())
    && (s.state == Completed && timeline != [] ==> s.currentFrameIndex == |timeline| - 1)
  }

  /** The operations a host can perform: the four controls and a display frame. */
  datatype Op = PlayAt(now: real) | PauseAt(now: real) | ResetOp | ToggleAt(now: real) | FrameAt(ts: real)

  function Apply(timeline: seq<TL.TimelineFrame>, s: HookState, op: Op): Step {
    match op
    case PlayAt(now) => Step(PlayStep(s, now), [])
    case PauseAt(now) => Step(PauseStep(s, now), [])
    case ResetOp => Step(InitialState(), [])
    case ToggleAt(now) => Step(ToggleStep(s, now), [])
    case FrameAt(ts) => FrameStep(timeline, s, ts)
  }

  /** Every operation keeps the invariant. */
  lemma ApplyKeepsInv(timeline: seq<TL.TimelineFrame>, s: HookState, op: Op)
    requires Inv(timeline, s)
    ensures Inv(timeline, Apply(timeline, s, op).next)
  {
    if op.FrameAt? {
      var r := FrameStep(timeline, s, op.ts);
      if r.next.currentFrameIndex != s.currentFrameIndex && timeline != [] {
        assert r.next.currentFrameIndex <= |timeline| - 1;
      }
    }
  }

  /** Play then pause banks exactly the time between them on top of what was already banked. */
  lemma PlayPauseBanksRunningTime(s: HookState, t0: real, t1: real)
    requires s.state != Completed
    ensures PauseStep(PlayStep(s, t0), t1).state == Paused
    ensures PauseStep(PlayStep(s, t0), t1).pausedElapsed == s.pausedElapsed + (t1 - t0)
    ensures PauseStep(PlayStep(s, t0), t1).currentFrameIndex == s.currentFrameIndex
  {
  }

  /**
   * Pausing freezes the clock: at every later timestamp the elapsed time is the elapsed time at
   * the moment of the pause, and resuming continues from there.
   */
  lemma PauseFreezesElapsed(s: HookState, now: real, later: real, resume: real)
    requires s.state == Running && s.startTimestamp.Some?
    ensures ElapsedAt(PauseStep(s, now), later) == ElapsedAt(s, now)
    ensures ElapsedAt(PlayStep(PauseStep(s, now), resume), resume) == ElapsedAt(s, now)
    ensures ElapsedAt(PlayStep(PauseStep(s, now), resume), later) == ElapsedAt(s, now) + (later - resume)
  {
  }

  /**
   * `play()` while already running restarts the clock from the banked time: the time run since
   * the previous `play` is discarded, so the display falls back to the frame it showed then.
   */
  lemma PlayWhileRunningRewinds(s: HookState, now: real)
    requires s.state == Running && s.startTimestamp.Some?
    ensures ElapsedAt(PlayStep(s, now), now) == ElapsedAt(s, now) - (now - s.startTimestamp.value)
  {
  }

  /**
   * When the timer completes on a non-empty timeline it has moved to the last frame; that frame
   * is reported, then completion.
   */
  lemma CompletionReportsLastFrame(timeline: seq<TL.TimelineFrame>, s: HookState, ts: real)
    requires timeline != []
    requires FrameStep(timeline, s, ts).next.state == Completed && s.state != Completed
    ensures FrameStep(timeline, s, ts).next.currentFrameIndex == |timeline| - 1
    ensures FrameStep(timeline, s, ts).events == [FrameChange(timeline[|timeline| - 1], |timeline| - 1), Complete]
  {
  }

  /** Once completed, display frames change nothing and report nothing. */
  lemma CompletedIsInert(timeline: seq<TL.TimelineFrame>, s: HookState, ts: real)
    requires s.state == Completed
    ensures FrameStep(timeline, s, ts) == Step(s, [])
  {
  }

  /** Pausing twice is pausing once; reset forgets everything. */
  lemma PauseIdempotent(s: HookState, t1: real, t2: real)
    ensures PauseStep(PauseStep(s, t1), t2) == PauseStep(s, t1)
  {
  }

  lemma ResetIsInitial(timeline: seq<TL.TimelineFrame>, s: HookState)
    ensures Apply(timeline, s, ResetOp).next == InitialState()
    ensures Inv(timeline, InitialState())
  {
  }

  /** The frame lookup moves forward as the elapsed time grows. */
  lemma FrameAtTimeMonotone(timeline: seq<TL.TimelineFrame>, a: real, b: real)
    requires timeline != [] && a <= b
    ensures TL.FrameAtTime(timeline, a).index <= TL.FrameAtTime(timeline, b).index
  {
    FloorMonotone(a / 1000.0, b / 1000.0);
  }

  lemma FloorMonotone(x: real, y: real)
    requires x <= y
    ensures x.Floor <= y.Floor
  {
  }

  /**
   * While running, with frames arriving at non-decreasing timestamps, the index on screen never
   * moves backwards.
   */
  lemma RunningIndexAdvances(timeline: seq<TL.TimelineFrame>, s: HookState, ts1: real, ts2: real)
    requires timeline != [] && ts1 <= ts2
    requires s.state == Running && s.startTimestamp.Some?
    requires FrameStep(timeline, s, ts1).next.state == Running
    ensures FrameStep(timeline, s, ts1).next.currentFrameIndex
      <= FrameStep(timeline, FrameStep(timeline, s, ts1).next, ts2).next.currentFrameIndex
  {
    var s1 := FrameStep(timeline, s, ts1).next;
    assert ElapsedAt(s1, ts1) == ElapsedAt(s, ts1);
    FrameAtTimeMonotone(timeline, ElapsedAt(s, ts1), ElapsedAt(s1, ts2));
  }

  /** The hook as an object: the timeline compiled once, the four state fields, the callback log. */
  class PlayPauseTimer {
    const config: TL.WorkoutConfig
    const timeline: seq<TL.TimelineFrame>
    /** Whether the caller passed `onFrameChange` and `onComplete`. */
    const hasOnFrameChange: bool
    const hasOnComplete: bool
    var state: TimerState
    var currentFrameIndex: int
    var startTimestamp: Option<real>
    var pausedElapsed: real
    /** Every `onFrameChange(frame, index)` and `onComplete()` call made so far. */
    var events: seq<HookEvent>

    function Hook(): HookState
      reads this
    {
      HookState(state, currentFrameIndex, startTimestamp, pausedElapsed)
    }

    predicate Valid()
      reads this
    {
      timeline == TL.Timeline(config) && timeline != [] && Inv(timeline, Hook())
    }

    constructor (config: TL.WorkoutConfig, hasOnFrameChange: bool, hasOnComplete: bool)
      ensures timeline == TL.Timeline(config)
      ensures this.hasOnFrameChange == hasOnFrameChange && this.hasOnComplete == hasOnComplete
      ensures Hook() == InitialState() && events == []
      ensures Valid()
    {
      var t := TL.CompileTimeline(config);
      TL.TimelineLength(config);
      this.config := config;
      this.hasOnFrameChange := hasOnFrameChange;
      this.hasOnComplete := hasOnComplete;
      timeline := t;
      state := Idle;
      currentFrameIndex := 0;
      startTimestamp := None;
      pausedElapsed := 0.0;
      events := [];
    }

    method Play(now: real)
      requires Valid()
      modifies this
      ensures Valid()
      ensures Hook() == PlayStep(old(Hook()), now) && events == old(events)
    {
      if state == Completed {
        currentFrameIndex := 0;
        pausedElapsed := 0.0;
      }
      startTimestamp := Some(now);
      state := Running;
    }

    method Pause(now: real)
      requires Valid()
      modifies this
      ensures Valid()
      ensures Hook() == PauseStep(old(Hook()), now) && events == old(events)
    {
      if state == Running && startTimestamp.Some? {
        var elapsed := now - startTimestamp.value + pausedElapsed;
        pausedElapsed := elapsed;
        startTimestamp := None;
        state := Paused;
      }
    }

    method Reset()
      requires Valid()
      modifies this
      ensures Valid()
      ensures Hook() == InitialState() && events == old(events)
    {
      startTimestamp := None;
      pausedElapsed := 0.0;
      currentFrameIndex := 0;
      state := Idle;
    }

    method Toggle(now: real)
      requires Valid()
      modifies this
      ensures Valid()
      ensures Hook() == ToggleStep(old(Hook()), now) && events == old(events)
    {
      if state == Running {
        Pause(now);
      } else {
        Play(now);
      }
    }

    method OnFrame(ts: real)
      requires Valid()
      modifies this
      ensures Valid()
      ensures Hook() == FrameStep(timeline, old(Hook()), ts).next
      ensures events == old(events) + Reported(FrameStep(timeline, old(Hook()), ts).events, hasOnFrameChange, hasOnComplete)
    {
      ApplyKeepsInv(timeline, Hook(), FrameAt(ts));
      ReportedNothing(events, hasOnFrameChange, hasOnComplete);
      if state != Running || startTimestamp.None? {
        return;
      }
      var elapsedMs := ts - startTimestamp.value + pausedElapsed;
      var index := TL.FrameAtTime(timeline, elapsedMs).index;
      if index != currentFrameIndex {
        ghost var prior := events;
        FrameStepMoves(timeline, Hook(), ts, elapsedMs, index);
        var completes := index >= |timeline| - 1;
        var change := FrameChange(timeline[index], index);
        // `onFrameChange(frame, index)` if passed, then `onComplete?.()` from the last index on
        var reported := (if hasOnFrameChange then [change] else [])
          + (if completes && hasOnComplete then [Complete] else []);
        currentFrameIndex := index;
        if completes {
          state := Completed;
        }
        events := events + reported;
        ReportedLog(prior, events, change, completes, hasOnFrameChange, hasOnComplete);
      }
    }

    /** `currentFrame`, `progress` and `overallProgress` as the hook returns them. */
    function Frame(): (f: Option<TL.TimelineFrame>)
      reads this
      requires Valid()
      ensures f == Some(timeline[currentFrameIndex])
    {
      CurrentFrame(timeline, currentFrameIndex)
    }

    /** The frame on screen is the last second of its segment. */
    predicate ActiveSegmentEnds()
      reads this
      requires Valid()
    {
      var f := timeline[currentFrameIndex];
      && currentFrameIndex > TL.PreCount(config)
      && TL.IsSegmentFrame(f)
      && f.secondInSegment.value + 1 == f.totalSecondsInSegment.value
    }

    function Progress(): (p: real)
      reads this
      requires Valid()
      ensures 0.0 <= p <= 1.0
      ensures p == 0.0 <==> currentFrameIndex < TL.PreCount(config)
      ensures p == 1.0 <==> (currentFrameIndex == TL.PreCount(config) || ActiveSegmentEnds())
    {
      TL.TimelineSegmentProgress(config, currentFrameIndex);
      TL.SegmentProgress(Frame())
    }

    function OverallProgress(): (p: real)
      reads this
      requires Valid()
      ensures 0.0 <= p <= 1.0
      ensures p == 1.0 <==> (|timeline| == 1 || currentFrameIndex == |timeline| - 1)
    {
      TL.TimelineProgress(timeline, currentFrameIndex)
    }
  }

  /**
   * Play at 0 ms, frames at 500 and 1500 ms, pause at 1600 ms, play again at 5000 ms and a frame
   * at 5500 ms: the run time is 2100 ms, so the timer shows the frame of second 2.
   */
  method ResumeScenario(config: TL.WorkoutConfig) returns (shownAfterPause: int, shownAfterResume: int)
    requires |TL.Timeline(config)| > 3
    ensures shownAfterPause == 1 && shownAfterResume == 2
  {
    var timer := new PlayPauseTimer(config, true, true);
    RunThenPause(timer);
    shownAfterPause := timer.currentFrameIndex;
    WaitThenResume(timer);
    shownAfterResume := timer.currentFrameIndex;
  }

  /** Play at 0 ms, frames at 500 and 1500 ms, pause at 1600 ms. */
  method RunThenPause(timer: PlayPauseTimer)
    requires timer.Valid() && timer.Hook() == InitialState() && |timer.timeline| > 3
    modifies timer
    ensures timer.Valid() && timer.Hook() == HookState(Paused, 1, None, 1600.0)
  {
    timer.Play(0.0);
    timer.OnFrame(500.0);
    timer.OnFrame(1500.0);
    timer.Pause(1600.0);
  }

  /** A frame at 4000 ms while paused, play at 5000 ms and a frame at 5500 ms. */
  method WaitThenResume(timer: PlayPauseTimer)
    requires timer.Valid() && timer.Hook() == HookState(Paused, 1, None, 1600.0) && |timer.timeline| > 3
    modifies timer
    ensures timer.currentFrameIndex == 2
  {
    timer.OnFrame(4000.0);
    timer.Play(5000.0);
    timer.OnFrame(5500.0);
  }
}
