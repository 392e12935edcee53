/**
 * `useTimerNew`: the newer frame-list runner. Its timeline is a fixed placeholder, ten countdown
 * frames and a GO frame, followed by the frames `compileTrainingTimer` makes for every phase;
 * a tick scheduler starting at index 1 with one tick per timeline frame shows
 * `timeline[tickIndex]`, and `toggleTimer` flips the scheduler and the displayed state.
 *
 * This compiler differs from `createTimer`: it keeps zero-length phases (they yield nothing),
 * its progress is `1 - (d - i) / d`, that is `i / d`, and its remaining total counts the
 * current frame as done, so it runs down to 0.
 */
module TimerNewHook {
  import opened Wrappers
  import opened TimerTypes
  import opened TrainingTimerSchema
  import TimerCompiler
  import FrameTick

  // ---------------------------------------------------------------------------------------
  // The static frames

  const INITIAL_PLACEHOLDER_FRAME := TimerFrame(PLACEHOLDER, REST, 0, 0, 0.0)

  function CountDownFrames(): seq<TimerFrame> {
    seq(10, i requires 0 <= i < 10 => TimerFrame(PRE_COUNTDOWN, REST, 10 - i, 0, 0.0))
  }

  const GO_FRAME := TimerFrame(GO, REST, 0, 0, 0.0)

  /** The hook's fixed head is exactly what `createTimer` emits before training under its defaults. */
  lemma StaticFramesMatchDefaults()
    ensures [INITIAL_PLACEHOLDER_FRAME] + CountDownFrames() + [GO_FRAME]
         == TimerCompiler.PreWorkoutFrames(TimerCompiler.DEFAULT_CONFIG)
  {
  }

  // ---------------------------------------------------------------------------------------
  // compileTrainingTimer

  function TotalDuration(phases: seq<TrainingTimerPhase>): nat { TimerCompiler.TotalDuration(phases) }

  /** The frame for second `i` of a `d`-second phase, `before` training frames having come earlier. */
  function PhaseFrame(d: nat, i: nat, workoutType: WorkoutType, total: int, before: int): (f: TimerFrame)
    requires i < d
    ensures f.phase == RUNNING && f.workoutType == workoutType && f.time == d - i
    ensures f.remainingTotalTime == total - (before + i + 1)
  {
    var frameCount := before + i + 1;
    var progress := 1.0 - (d - i) as real / d as real;
    TimerFrame(RUNNING, workoutType, d - i, total - frameCount, progress)
  }

  function PhaseFrames(phase: TrainingTimerPhase, workoutType: WorkoutType, total: int, before: int): (r: seq<TimerFrame>)
    ensures |r| == phase.duration
  {
    seq(phase.duration, i requires 0 <= i < phase.duration => PhaseFrame(phase.duration, i, workoutType, total, before))
  }

  /** The training frames: phase after phase, each counting on from where the previous one ended. */
  function TrainingFrames(phases: seq<TrainingTimerPhase>, workoutType: WorkoutType, total: int): (r: seq<TimerFrame>)
    ensures forall k :: 0 <= k < |r| ==> r[k].phase == RUNNING && r[k].workoutType == workoutType
    decreases |phases|
  {
    if phases == [] then []
    else
      TrainingFrames(phases[..|phases| - 1], workoutType, total)
      + PhaseFrames(phases[|phases| - 1], workoutType, total, TotalDuration(phases[..|phases| - 1]))
  }

  lemma {:induction false} TrainingFramesLength(phases: seq<TrainingTimerPhase>, workoutType: WorkoutType, total: int)
    ensures |TrainingFrames(phases, workoutType, total)| == TotalDuration(phases)
    decreases |phases|
  {
    if phases != [] {
      var n := |phases| - 1;
      TrainingFramesLength(phases[..n], workoutType, total);
      TotalDurationSnoc(phases, n);
      assert phases[..n + 1] == phases;
    }
  }

  lemma TotalDurationSnoc(phases: seq<TrainingTimerPhase>, n: nat)
    requires n < |phases|
    ensures TotalDuration(phases[..n + 1]) == TotalDuration(phases[..n]) + phases[n].duration
  {
    var front := phases[..n + 1];
    TimerCompiler.TotalDurationSplit(front, n);
    assert front[..n] == phases[..n];
    assert front[n..] == [phases[n]];
    assert TimerCompiler.TotalDuration([phases[n]]) == phases[n].duration + TimerCompiler.TotalDuration([]);
  }

  /** The training frames of a description, with the total over all its phases. */
  function CompiledTraining(trainingTimer: TrainingTimer): seq<TimerFrame> {
    TrainingFrames(trainingTimer.phases, trainingTimer.workoutType, TotalDuration(trainingTimer.phases))
  }

  method CompileTrainingTimer(trainingTimer: TrainingTimer) returns (frames: seq<TimerFrame>)
    ensures frames == CompiledTraining(trainingTimer)
  {
    var phases := trainingTimer.phases;
    var workoutType := trainingTimer.workoutType;
    var totalTrainingTime := TotalDuration(phases);
    var frameCount := 0;
    frames := [];
    var p := 0;
    while p < |phases|
      invariant 0 <= p <= |phases|
      invariant frames == TrainingFrames(phases[..p], workoutType, totalTrainingTime)
      invariant frameCount == TotalDuration(phases[..p])
    {
      var secondsInPhase := phases[p].duration;
      ghost var before := frameCount;
      var phaseFrames := [];
      var i := 0;
      while i < secondsInPhase
        invariant 0 <= i <= secondsInPhase
        invariant frameCount == before + i
        invariant |phaseFrames| == i
        invariant forall k :: 0 <= k < i ==>
          phaseFrames[k] == PhaseFrame(secondsInPhase, k, workoutType, totalTrainingTime, before)
      {
        frameCount := frameCount + 1;
        phaseFrames := phaseFrames + [PhaseFrame(secondsInPhase, i, workoutType, totalTrainingTime, frameCount - i - 1)];
        i := i + 1;
      }
      assert phaseFrames == PhaseFrames(phases[p], workoutType, totalTrainingTime, before);
      assert phases[..p + 1][..p] == phases[..p];
      TotalDurationSnoc(phases, p);
      frames := frames + phaseFrames;
      p := p + 1;
    }
    assert phases[..p] == phases;
  }

  /** A phase's frames count `time` down from `d` to 1 while `progress` climbs as `i / d`. */
  lemma PhaseFrameFacts(d: nat, i: nat, workoutType: WorkoutType, total: int, before: int)
    requires i < d
    ensures PhaseFrame(d, i, workoutType, total, before).time == d - i >= 1
    ensures PhaseFrame(d, i, workoutType, total, before).progress == i as real / d as real
    ensures 0.0 <= PhaseFrame(d, i, workoutType, total, before).progress < 1.0
    ensures i == 0 ==> PhaseFrame(d, i, workoutType, total, before).progress == 0.0
    ensures i == d - 1 ==> PhaseFrame(d, i, workoutType, total, before).progress == (d - 1) as real / d as real
  {
    var x := (d - i) as real / d as real;
    assert x * d as real == (d - i) as real;
    assert (1.0 - x) * d as real == i as real;
  }

  /**
   * Second `i` of phase `p` comes right after the frames of phases 0 .. p-1, and is the
   * `PhaseFrame` for that second.
   */
  lemma {:induction false} TrainingFramesAt(phases: seq<TrainingTimerPhase>, workoutType: WorkoutType, total: int, p: nat, i: nat)
    requires p < |phases| && i < phases[p].duration
    ensures TotalDuration(phases[..p]) + i < |TrainingFrames(phases, workoutType, total)|
    ensures TrainingFrames(phases, workoutType, total)[TotalDuration(phases[..p]) + i]
         == PhaseFrame(phases[p].duration, i, workoutType, total, TotalDuration(phases[..p]))
    decreases |phases|
  {
    var n := |phases| - 1;
    var front := phases[..n];
    var a := TrainingFrames(front, workoutType, total);
    var b := PhaseFrames(phases[n], workoutType, total, TotalDuration(front));
    assert TrainingFrames(phases, workoutType, total) == a + b;
    TrainingFramesLength(front, workoutType, total);
    if p < n {
      TrainingFramesAt(front, workoutType, total, p, i);
      assert front[..p] == phases[..p];
      assert front[p] == phases[p];
      assert (a + b)[TotalDuration(phases[..p]) + i] == a[TotalDuration(phases[..p]) + i];
    } else {
      assert front == phases[..p];
      assert (a + b)[|a| + i] == b[i];
    }
  }

  /**
   * Over all training frames, frame `k` is a RUNNING frame of the input's workout type whose
   * remaining total is `total - before - 1 - k`: with `before = 0` they run `total - 1` down to
   * 0 without a jump at phase boundaries, and every `time` is at least 1.
   */
  lemma {:induction false} TrainingFramesRunDown(phases: seq<TrainingTimerPhase>, workoutType: WorkoutType, total: int)
    ensures var r := TrainingFrames(phases, workoutType, total);
      forall k :: 0 <= k < |r| ==>
        && r[k].phase == RUNNING && r[k].workoutType == workoutType && r[k].time >= 1
        && r[k].remainingTotalTime == total - 1 - k
        && 0.0 <= r[k].progress < 1.0
    decreases |phases|
  {
    if phases != [] {
      var n := |phases| - 1;
      var front := phases[..n];
      TrainingFramesRunDown(front, workoutType, total);
      var a := TrainingFrames(front, workoutType, total);
      var b := PhaseFrames(phases[n], workoutType, total, TotalDuration(front));
      assert TrainingFrames(phases, workoutType, total) == a + b;
      TrainingFramesLength(front, workoutType, total);
      forall k | 0 <= k < |b|
        ensures (a + b)[|a| + k] == b[k]
        ensures b[k].phase == RUNNING && b[k].workoutType == workoutType && b[k].time >= 1
        ensures b[k].remainingTotalTime == total - 1 - (|a| + k)
        ensures 0.0 <= b[k].progress < 1.0
      {
        PhaseFrameFacts(phases[n].duration, k, workoutType, total, TotalDuration(front));
      }
    }
  }

  /** A zero-length phase is kept but adds no frame and nothing to the total. */
  lemma ZeroPhaseAddsNothing(phases: seq<TrainingTimerPhase>, zero: TrainingTimerPhase, workoutType: WorkoutType, total: int)
    requires zero.duration == 0
    ensures TotalDuration(phases + [zero]) == TotalDuration(phases)
    ensures TrainingFrames(phases + [zero], workoutType, total) == TrainingFrames(phases, workoutType, total)
  {
    var all := phases + [zero];
    assert all[..|phases|] == phases;
    TotalDurationSnoc(all, |phases|);
    assert all[..|phases| + 1] == all;
  }

  // ---------------------------------------------------------------------------------------
  // The timeline

  function Timeline(trainingTimer: TrainingTimer): (r: seq<TimerFrame>)
    ensures |r| == 12 + TotalDuration(trainingTimer.phases)
  {
    TrainingFramesLength(trainingTimer.phases, trainingTimer.workoutType, TotalDuration(trainingTimer.phases));
    [INITIAL_PLACEHOLDER_FRAME] + CountDownFrames() + [GO_FRAME] + CompiledTraining(trainingTimer)
  }

  /**
   * The timeline: placeholder, countdown 10 .. 1, GO, then one frame per training second whose
   * remaining total runs from `total - 1` down to 0; the last frame of a non-empty workout
   * shows 0 remaining.
   */
  lemma TimelineLayout(trainingTimer: TrainingTimer)
    ensures var t := Timeline(trainingTimer);
      var total := TotalDuration(trainingTimer.phases);
      && |t| == 12 + total
      && t[0].phase == PLACEHOLDER
      && (forall k :: 1 <= k <= 10 ==> t[k].phase == PRE_COUNTDOWN && t[k].time == 11 - k)
      && t[11].phase == GO
      && (forall k :: 12 <= k < |t| ==> t[k].phase == RUNNING && t[k].remainingTotalTime == total + 11 - k)
      && (total > 0 ==> t[|t| - 1].remainingTotalTime == 0)
  {
    var head := [INITIAL_PLACEHOLDER_FRAME] + CountDownFrames() + [GO_FRAME];
    var tail := CompiledTraining(trainingTimer);
    TrainingFramesRunDown(trainingTimer.phases, trainingTimer.workoutType, TotalDuration(trainingTimer.phases));
    TrainingFramesLength(trainingTimer.phases, trainingTimer.workoutType, TotalDuration(trainingTimer.phases));
    assert forall k :: 12 <= k < |head + tail| ==> (head + tail)[k] == tail[k - 12];
  }

  // ---------------------------------------------------------------------------------------
  // toggleTimer

  /** `prev === RUNNING ? PAUSED : RUNNING`. */
  function Toggled(state: TimerState): (r: TimerState)
    ensures r == PAUSED <==> state == RUNNING_STATE
    ensures r == RUNNING_STATE <==> state != RUNNING_STATE
  {
    if state == RUNNING_STATE then PAUSED else RUNNING_STATE
  }

  /**
   * The hook's state: the timeline, the scheduler over it, the displayed state and frame. The
   * scheduler is created without `onComplete`, so it only ever calls `onTick`.
   */
  class TimerNew {
    const timeline: seq<TimerFrame>
    const ticker: FrameTick.FrameTicker
    var timerState: TimerState
    var frame: TimerFrame

    ghost predicate Valid()
      reads this, ticker
    {
      && |timeline| >= 12
      && ticker.maxTicks == |timeline|
      && ticker.tickIndex >= 0
      && !ticker.hasOnComplete
      && FrameTick.Complete !in ticker.events
    }

    constructor (trainingTimer: TrainingTimer)
      ensures Valid() && fresh(ticker)
      ensures timeline == Timeline(trainingTimer)
      ensures timerState == NOT_STARTED && frame == timeline[0]
      ensures ticker.State() == FrameTick.InitialState(|timeline|, Some(1)) && ticker.events == []
    {
      var training := CompileTrainingTimer(trainingTimer);
      var t := [INITIAL_PLACEHOLDER_FRAME] + CountDownFrames() + [GO_FRAME] + training;
      timeline := t;
      ticker := new FrameTick.FrameTicker(|t|, Some(1), false);
      timerState := NOT_STARTED;
      frame := t[0];
    }

    /** `toggleTimer`: flip the scheduler and the displayed state. */
    method ToggleTimer()
      requires Valid()
      modifies this, ticker
      ensures Valid()
      ensures ticker.State() == FrameTick.SetActive(old(ticker.State()), !old(ticker.active))
      ensures ticker.events == old(ticker.events)
      ensures timerState == Toggled(old(timerState)) && frame == old(frame)
    {
      ticker.Toggle();
      timerState := Toggled(timerState);
    }

    /** A display frame: the scheduler runs, and a tick shows the timeline frame at its index. */
    method OnFrame(ts: real)
      requires Valid()
      modifies this, ticker
      ensures Valid()
      ensures ticker.State() == FrameTick.Frame(old(ticker.State()), ts).state
      ensures ticker.events == old(ticker.events) + FrameTick.Calls(FrameTick.Frame(old(ticker.State()), ts).events, false)
      ensures timerState == old(timerState)
      ensures FrameTick.Frame(old(ticker.State()), ts).events == [FrameTick.Tick(old(ticker.tickIndex))] ==>
        frame == timeline[old(ticker.tickIndex)]
      ensures FrameTick.Frame(old(ticker.State()), ts).events != [FrameTick.Tick(old(ticker.tickIndex))] ==>
        frame == old(frame)
    {
      var before := |ticker.events|;
      var index := ticker.tickIndex;
      ticker.OnFrame(ts);
      if ticker.events[before..] == [FrameTick.Tick(index)] {
        frame := timeline[index];
      }
    }
  }

  /** While nothing has completed, the scheduler runs exactly when the displayed state is RUNNING. */
  lemma ToggleKeepsAgreement(s: FrameTick.TickerState, state: TimerState)
    requires s.active <==> state == RUNNING_STATE
    ensures FrameTick.SetActive(s, !s.active).active <==> Toggled(state) == RUNNING_STATE
  {
  }

  /**
   * Completion stops the scheduler but leaves the displayed state RUNNING; the next toggle then
   * restarts the scheduler while showing PAUSED.
   */
  lemma CompletionDesynchronises(s: FrameTick.TickerState, ts: real)
    requires s.active && s.tickIndex >= s.maxTicks
    ensures !FrameTick.Frame(s, ts).state.active
    ensures FrameTick.SetActive(FrameTick.Frame(s, ts).state, true).active && Toggled(RUNNING_STATE) == PAUSED
  {
  }
}
