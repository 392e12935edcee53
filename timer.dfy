/**
 * `createTimer`: validates a workout description and compiles it into the flat list of
 * one-second frames: an optional placeholder, the countdown, an optional GO frame, and one
 * RUNNING frame per second of every phase with a positive duration.
 */
module TimerCompiler {
  import opened Wrappers
  import opened TimerTypes
  import opened TrainingTimerSchema

  datatype TimerConfig = TimerConfig(countdownDuration: nat, showPlaceholder: bool, showGoFrame: bool)

  const DEFAULT_CONFIG := TimerConfig(10, true, true)

  /**
   * One property of a `Partial<TimerConfig>` argument: left out, present with the value
   * `undefined`, or given a value. The spread `{ ...DEFAULT_CONFIG, ...config }` keeps the default
   * only for a property that is left out.
   */
  datatype Override<T> = Omitted | ExplicitUndefined | Given(value: T)

  datatype PartialConfig = PartialConfig(
    countdownDuration: Override<nat>,
    showPlaceholder: Override<bool>,
    showGoFrame: Override<bool>)

  const NO_OVERRIDES := PartialConfig(Omitted, Omitted, Omitted)

  /**
   * The merged configuration. An explicit `undefined` overrides the default, and the frame
   * builders then read it as a length of 0 (`Array.from({ length: undefined })` is empty) and
   * as false (`undefined ? [...] : []`).
   */
  function ResolveConfig(c: PartialConfig): (r: TimerConfig)
    ensures c.countdownDuration.Omitted? ==> r.countdownDuration == DEFAULT_CONFIG.countdownDuration
    ensures c.showPlaceholder.Omitted? ==> r.showPlaceholder == DEFAULT_CONFIG.showPlaceholder
    ensures c.showGoFrame.Omitted? ==> r.showGoFrame == DEFAULT_CONFIG.showGoFrame
    ensures c.countdownDuration.Given? ==> r.countdownDuration == c.countdownDuration.value
    ensures c.showPlaceholder.Given? ==> r.showPlaceholder == c.showPlaceholder.value
    ensures c.showGoFrame.Given? ==> r.showGoFrame == c.showGoFrame.value
    ensures c.countdownDuration.ExplicitUndefined? ==> r.countdownDuration == 0
    ensures c.showPlaceholder.ExplicitUndefined? ==> !r.showPlaceholder
    ensures c.showGoFrame.ExplicitUndefined? ==> !r.showGoFrame
  {
    TimerConfig(
      match c.countdownDuration
      case Omitted => DEFAULT_CONFIG.countdownDuration
      case ExplicitUndefined => 0
      case Given(v) => v,
      match c.showPlaceholder
      case Omitted => DEFAULT_CONFIG.showPlaceholder
      case ExplicitUndefined => false
      case Given(v) => v,
      match c.showGoFrame
      case Omitted => DEFAULT_CONFIG.showGoFrame
      case ExplicitUndefined => false
      case Given(v) => v)
  }

  datatype Timer = Timer(frames: seq<TimerFrame>)

  // ---------------------------------------------------------------------------------------
  // Pre-workout frames

  /** `initialPlaceholderFrame`: a still REST frame before the countdown. */
  function PlaceholderFrame(): (f: TimerFrame)
    ensures f.phase == PLACEHOLDER && f.workoutType == REST && f.progress == 0.0
  {
    TimerFrame(PLACEHOLDER, REST, 0, 0, 0.0)
  }

  /** The countdown: `duration` REST frames showing `duration` down to 1. */
  function CountdownFrames(duration: nat): (r: seq<TimerFrame>)
    ensures |r| == duration
    ensures forall i :: 0 <= i < |r| ==> r[i].phase == PRE_COUNTDOWN && r[i].workoutType == REST && r[i].time == duration - i
  {
    seq(duration, i requires 0 <= i < duration => TimerFrame(PRE_COUNTDOWN, REST, duration - i, 0, 0.0))
  }

  /** `goFrame`: the REST frame between the countdown and the first phase. */
  function GoFrame(): (f: TimerFrame)
    ensures f.phase == GO && f.workoutType == REST && f.progress == 0.0
  {
    TimerFrame(GO, REST, 0, 0, 0.0)
  }

  /** The frames before training; none of them is RUNNING. */
  function PreWorkoutFrames(config: TimerConfig): (r: seq<TimerFrame>)
    ensures |r| == PreWorkoutCount(config)
  {
    (if config.showPlaceholder then [PlaceholderFrame()] else [])
    + CountdownFrames(config.countdownDuration)
    + (if config.showGoFrame then [GoFrame()] else [])
  }

  function PreWorkoutCount(config: TimerConfig): nat {
    (if config.showPlaceholder then 1 else 0) + config.countdownDuration + (if config.showGoFrame then 1 else 0)
  }

  // ---------------------------------------------------------------------------------------
  // Training frames

  /** `phases.filter(phase => phase.duration > 0)`. */
  function FilterValidPhases(phases: seq<TrainingTimerPhase>): (r: seq<TrainingTimerPhase>)
    ensures |r| <= |phases|
  {
    if phases == [] then []
    else (if phases[0].duration > 0 then [phases[0]] else []) + FilterValidPhases(phases[1..])
  }

  /** The kept phases are exactly the input's phases with a positive duration. */
  lemma {:induction false} FilterValidPhasesKeeps(phases: seq<TrainingTimerPhase>)
    ensures var r := FilterValidPhases(phases);
      && (forall k :: 0 <= k < |r| ==> r[k].duration > 0)
      && (forall p :: p in r <==> p in phases && p.duration > 0)
    decreases |phases|
  {
    if phases != [] {
      FilterValidPhasesKeeps(phases[1..]);
      var head := if phases[0].duration > 0 then [phases[0]] else [];
      var r := FilterValidPhases(phases[1..]);
      assert FilterValidPhases(phases) == head + r;
      assert phases == [phases[0]] + phases[1..];
      forall p
        ensures p in head + r <==> p in phases && p.duration > 0
      {
        assert p in phases <==> p == phases[0] || p in phases[1..];
      }
    }
  }

  /** The sum of the durations (the `reduce` that computes `totalTime`). */
  function TotalDuration(phases: seq<TrainingTimerPhase>): nat {
    if phases == [] then 0 else phases[0].duration + TotalDuration(phases[1..])
  }

  /** The frame for second `i` of a phase of `duration` seconds. */
  function RunningFrame(duration: nat, i: nat, workoutType: WorkoutType, totalTime: int, elapsedFrames: int): TimerFrame
    requires i < duration
  {
    TimerFrame(RUNNING, workoutType, duration - i, totalTime - elapsedFrames - i, (i + 1) as real / duration as real)
  }

  /** The frames of one phase: one RUNNING frame per second, the time counting down to 1. */
  function PhaseFrames(phase: TrainingTimerPhase, workoutType: WorkoutType, totalTime: int, elapsedFrames: int): (r: seq<TimerFrame>)
    ensures |r| == phase.duration
    ensures forall i :: 0 <= i < |r| ==>
      r[i].phase == RUNNING && r[i].workoutType == workoutType && r[i].time == phase.duration - i
      && r[i].remainingTotalTime == totalTime - elapsedFrames - i
  {
    seq(phase.duration, i requires 0 <= i < phase.duration => RunningFrame(phase.duration, i, workoutType, totalTime, elapsedFrames))
  }

  /** The accumulator `{ frames, elapsedFrames }` of the training `reduce`. */
  datatype Acc = Acc(frames: seq<TimerFrame>, elapsedFrames: int)

  function Step(acc: Acc, phase: TrainingTimerPhase, workoutType: WorkoutType, totalTime: int): Acc {
    Acc(acc.frames + PhaseFrames(phase, workoutType, totalTime, acc.elapsedFrames), acc.elapsedFrames + phase.duration)
  }

  /** `phases.reduce(step, acc)`, left to right. */
  function Reduce(phases: seq<TrainingTimerPhase>, workoutType: WorkoutType, totalTime: int, acc: Acc): (r: Acc)
    ensures r.elapsedFrames == acc.elapsedFrames + TotalDuration(phases)
    ensures |r.frames| == |acc.frames| + TotalDuration(phases)
    decreases |phases|
  {
    if phases == [] then acc else Reduce(phases[1..], workoutType, totalTime, Step(acc, phases[0], workoutType, totalTime))
  }

  /** The training frames: one per second of the phases. */
  function TrainingFrames(trainingTimer: TrainingTimer): (r: seq<TimerFrame>)
    ensures |r| == TotalDuration(trainingTimer.phases)
  {
    FilterKeepsTotal(trainingTimer.phases);
    var validPhases := FilterValidPhases(trainingTimer.phases);
    var totalTime := TotalDuration(validPhases);
    Reduce(validPhases, trainingTimer.workoutType, totalTime, Acc([], 0)).frames
  }

  /** The frames of a validated description under a resolved configuration. */
  function CompileFrames(trainingTimer: TrainingTimer, config: TimerConfig): (r: seq<TimerFrame>)
    ensures |r| == PreWorkoutCount(config) + TotalDuration(trainingTimer.phases)
  {
    PreWorkoutFrames(config) + TrainingFrames(trainingTimer)
  }

  /** `createTimer(input, config)`: the frames, or the validation issues (the thrown ZodError). */
  function CreateTimer(input: Raw, config: PartialConfig): (r: Result<Timer, seq<Issue>>)
    ensures r.Failure? <==> Validate(input).Failure?
    ensures r.Failure? ==> r.error == Validate(input).error
    ensures r.Success? ==>
      |r.value.frames| == PreWorkoutCount(ResolveConfig(config)) + TotalDuration(Validate(input).value.phases)
  {
    match Validate(input)
    case Failure(issues) => Failure(issues)
    case Success(trainingTimer) => Success(Timer(CompileFrames(trainingTimer, ResolveConfig(config))))
  }

  // ---------------------------------------------------------------------------------------
  // A reference description of the training frames: phase by phase, each starting where the
  // previous one ended.

  function Concatenated(phases: seq<TrainingTimerPhase>, workoutType: WorkoutType, totalTime: int, elapsed: int): seq<TimerFrame>
    decreases |phases|
  {
    if phases == [] then []
    else (PhaseFrames(phases[0], workoutType, totalTime, elapsed)
      + Concatenated(phases[1..], workoutType, totalTime, elapsed + phases[0].duration))
  }

  /** The first training second of phase `p`: the durations before it. */
  function PhaseStart(phases: seq<TrainingTimerPhase>, p: nat): nat
    requires p <= |phases|
  {
    TotalDuration(phases[..p])
  }

  lemma {:induction false} ReduceIsConcatenation(phases: seq<TrainingTimerPhase>, workoutType: WorkoutType, totalTime: int, acc: Acc)
    ensures Reduce(phases, workoutType, totalTime, acc)
      == Acc(acc.frames + Concatenated(phases, workoutType, totalTime, acc.elapsedFrames), acc.elapsedFrames + TotalDuration(phases))
    decreases |phases|
  {
    if phases != [] {
      var next := Step(acc, phases[0], workoutType, totalTime);
      ReduceIsConcatenation(phases[1..], workoutType, totalTime, next);
      assert acc.frames + PhaseFrames(phases[0], workoutType, totalTime, acc.elapsedFrames)
          + Concatenated(phases[1..], workoutType, totalTime, next.elapsedFrames)
        == acc.frames + Concatenated(phases, workoutType, totalTime, acc.elapsedFrames);
    }
  }

  /**
   * Every frame of the concatenation, read by its place in the whole: RUNNING, of the input's
   * type, with `remainingTotalTime = totalTime - elapsed - j`, a phase time of at least 1 and a
   * progress in (0, 1] that is exactly 1 on the frame whose time is 1.
   */
  lemma {:induction false} ConcatenatedFrames(phases: seq<TrainingTimerPhase>, workoutType: WorkoutType, totalTime: int, elapsed: int)
    ensures |Concatenated(phases, workoutType, totalTime, elapsed)| == TotalDuration(phases)
    ensures var fs := Concatenated(phases, workoutType, totalTime, elapsed);
      forall j :: 0 <= j < |fs| ==>
        && fs[j].phase == RUNNING
        && fs[j].workoutType == workoutType
        && fs[j].remainingTotalTime == totalTime - elapsed - j
        && fs[j].time >= 1
        && 0.0 < fs[j].progress <= 1.0
        && (fs[j].progress == 1.0 <==> fs[j].time == 1)
    decreases |phases|
  {
    if phases != [] {
      var d := phases[0].duration;
      ConcatenatedFrames(phases[1..], workoutType, totalTime, elapsed + d);
      var head := PhaseFrames(phases[0], workoutType, totalTime, elapsed);
      var fs := Concatenated(phases, workoutType, totalTime, elapsed);
      forall j | 0 <= j < |fs|
        ensures && fs[j].phase == RUNNING
                && fs[j].workoutType == workoutType
                && fs[j].remainingTotalTime == totalTime - elapsed - j
                && fs[j].time >= 1
                && 0.0 < fs[j].progress <= 1.0
                && (fs[j].progress == 1.0 <==> fs[j].time == 1)
      {
        if j < d {
          ProgressFacts(d, j);
        }
      }
    }
  }

  lemma ProgressFacts(d: nat, i: nat)
    requires i < d
    ensures 0.0 < (i + 1) as real / d as real <= 1.0
    ensures (i + 1) as real / d as real == 1.0 <==> i == d - 1
  {
    var p := (i + 1) as real / d as real;
    assert p * d as real == (i + 1) as real;
  }

  /** Frame `i` of phase `p` sits at `PhaseStart(p) + i` and is that phase's RunningFrame. */
  lemma {:induction false} ConcatenatedAt(phases: seq<TrainingTimerPhase>, workoutType: WorkoutType, totalTime: int, elapsed: int, p: nat, i: nat)
    requires p < |phases| && i < phases[p].duration
    ensures PhaseStart(phases, p) + i < |Concatenated(phases, workoutType, totalTime, elapsed)|
    ensures Concatenated(phases, workoutType, totalTime, elapsed)[PhaseStart(phases, p) + i]
      == RunningFrame(phases[p].duration, i, workoutType, totalTime, elapsed + PhaseStart(phases, p))
    decreases p
  {
    if p == 0 {
      assert phases[..0] == [];
      ConcatenatedHead(phases, workoutType, totalTime, elapsed, i);
    } else {
      var rest, d := phases[1..], phases[0].duration;
      assert rest[p - 1] == phases[p];
      ConcatenatedAt(rest, workoutType, totalTime, elapsed + d, p - 1, i);
      PhaseStartStep(phases, p);
      ConcatenatedTail(phases, workoutType, totalTime, elapsed, PhaseStart(rest, p - 1) + i);
    }
  }

  /** The first phase's frames open the concatenation. */
  lemma ConcatenatedHead(phases: seq<TrainingTimerPhase>, workoutType: WorkoutType, totalTime: int, elapsed: int, i: nat)
    requires |phases| > 0 && i < phases[0].duration
    ensures i < |Concatenated(phases, workoutType, totalTime, elapsed)|
    ensures Concatenated(phases, workoutType, totalTime, elapsed)[i]
      == RunningFrame(phases[0].duration, i, workoutType, totalTime, elapsed)
  {
    var head := PhaseFrames(phases[0], workoutType, totalTime, elapsed);
    var tail := Concatenated(phases[1..], workoutType, totalTime, elapsed + phases[0].duration);
    assert Concatenated(phases, workoutType, totalTime, elapsed) == head + tail;
    assert (head + tail)[i] == head[i];
  }

  /** After the first phase's frames come the rest's frames, started where the first phase ends. */
  lemma ConcatenatedTail(phases: seq<TrainingTimerPhase>, workoutType: WorkoutType, totalTime: int, elapsed: int, k: nat)
    requires |phases| > 0
    requires k < |Concatenated(phases[1..], workoutType, totalTime, elapsed + phases[0].duration)|
    ensures phases[0].duration + k < |Concatenated(phases, workoutType, totalTime, elapsed)|
    ensures Concatenated(phases, workoutType, totalTime, elapsed)[phases[0].duration + k]
      == Concatenated(phases[1..], workoutType, totalTime, elapsed + phases[0].duration)[k]
  {
    var head := PhaseFrames(phases[0], workoutType, totalTime, elapsed);
    var tail := Concatenated(phases[1..], workoutType, totalTime, elapsed + phases[0].duration);
    assert Concatenated(phases, workoutType, totalTime, elapsed) == head + tail;
    assert (head + tail)[|head| + k] == tail[k];
  }

  /** The start of phase `p` is the first duration plus the start of phase `p - 1` of the rest. */
  lemma PhaseStartStep(phases: seq<TrainingTimerPhase>, p: nat)
    requires 0 < p <= |phases|
    ensures PhaseStart(phases, p) == phases[0].duration + PhaseStart(phases[1..], p - 1)
  {
    assert phases[1..][..p - 1] == phases[..p][1..];
  }

  lemma {:induction false} TotalDurationSplit(phases: seq<TrainingTimerPhase>, p: nat)
    requires p <= |phases|
    ensures TotalDuration(phases) == TotalDuration(phases[..p]) + TotalDuration(phases[p..])
    ensures p < |phases| ==> TotalDuration(phases[..p]) + phases[p].duration <= TotalDuration(phases)
    decreases p
  {
    if p > 0 {
      TotalDurationSplit(phases[1..], p - 1);
      assert phases[1..][..p - 1] == phases[..p][1..];
      assert phases[1..][p - 1..] == phases[p..];
    }
    if p < |phases| {
      assert TotalDuration(phases[p..]) == phases[p].duration + TotalDuration(phases[p..][1..]);
    }
  }

  lemma {:induction false} FilterKeepsTotal(phases: seq<TrainingTimerPhase>)
    ensures TotalDuration(FilterValidPhases(phases)) == TotalDuration(phases)
    decreases |phases|
  {
    if phases != [] {
      FilterKeepsTotal(phases[1..]);
      var r := FilterValidPhases(phases[1..]);
      if phases[0].duration > 0 {
        assert FilterValidPhases(phases) == [phases[0]] + r;
        assert ([phases[0]] + r)[1..] == r;
      } else {
        assert FilterValidPhases(phases) == r;
      }
    }
  }

  lemma {:induction false} FilterConcat(a: seq<TrainingTimerPhase>, b: seq<TrainingTimerPhase>)
    ensures FilterValidPhases(a + b) == FilterValidPhases(a) + FilterValidPhases(b)
    decreases |a|
  {
    if a != [] {
      FilterConcat(a[1..], b);
      assert (a + b)[1..] == a[1..] + b;
    } else {
      assert a + b == b;
    }
  }

  // ---------------------------------------------------------------------------------------
  // What createTimer promises.

  /** createTimer fails exactly when validation fails, with the same issues, and otherwise compiles the decoded value. */
  lemma CreateTimerValidates(input: Raw, config: PartialConfig)
    ensures CreateTimer(input, config).Failure? <==> Validate(input).Failure?
    ensures Validate(input).Failure? ==> CreateTimer(input, config).error == Validate(input).error
    ensures Validate(input).Success? ==>
      CreateTimer(input, config).value.frames == CompileFrames(Validate(input).value, ResolveConfig(config))
  {
  }

  /** The training frames are the phases with positive duration, one after another. */
  lemma TrainingFramesAreConcatenation(tt: TrainingTimer)
    ensures TrainingFrames(tt) == Concatenated(FilterValidPhases(tt.phases), tt.workoutType, TotalDuration(tt.phases), 0)
    ensures |TrainingFrames(tt)| == TotalDuration(tt.phases)
  {
    var valid := FilterValidPhases(tt.phases);
    FilterKeepsTotal(tt.phases);
    ReduceIsConcatenation(valid, tt.workoutType, TotalDuration(valid), Acc([], 0));
    ConcatenatedFrames(valid, tt.workoutType, TotalDuration(valid), 0);
  }

  /** The frame count: placeholder, countdown and GO as configured, plus one frame per training second. */
  lemma FrameCount(tt: TrainingTimer, c: TimerConfig)
    ensures |CompileFrames(tt, c)|
      == (if c.showPlaceholder then 1 else 0) + c.countdownDuration + (if c.showGoFrame then 1 else 0)
       + TotalDuration(tt.phases)
  {
    TrainingFramesAreConcatenation(tt);
  }

  /**
   * The layout before training: the placeholder (iff configured) first, then the countdown
   * `countdownDuration .. 1`, then GO (iff configured), all REST frames with zero totals and
   * zero progress.
   */
  lemma PreWorkoutLayout(tt: TrainingTimer, c: TimerConfig)
    ensures var frames := CompileFrames(tt, c);
      var first := if c.showPlaceholder then 1 else 0;
      && |frames| >= PreWorkoutCount(c)
      && (c.showPlaceholder ==> frames[0] == TimerFrame(PLACEHOLDER, REST, 0, 0, 0.0))
      && (forall k :: first <= k < first + c.countdownDuration ==>
            frames[k] == TimerFrame(PRE_COUNTDOWN, REST, c.countdownDuration - (k - first), 0, 0.0))
      && (c.showGoFrame ==> frames[first + c.countdownDuration] == TimerFrame(GO, REST, 0, 0, 0.0))
      && (forall k :: 0 <= k < PreWorkoutCount(c) ==> frames[k].phase != RUNNING && frames[k].workoutType == REST)
  {
    var pre := PreWorkoutFrames(c);
    var frames := CompileFrames(tt, c);
    var first := if c.showPlaceholder then 1 else 0;
    var cd := CountdownFrames(c.countdownDuration);
    assert |pre| == PreWorkoutCount(c);
    forall k | 0 <= k < PreWorkoutCount(c)
      ensures frames[k] == pre[k]
      ensures first <= k < first + c.countdownDuration ==> pre[k] == cd[k - first]
    {
    }
  }

  /**
   * Over all training frames `remainingTotalTime` runs total, total - 1, ..., 1 with no jump
   * between phases; every frame is RUNNING with the input's workout type, a phase time of at
   * least 1, and a progress in (0, 1] that is exactly 1 on each phase's last second.
   */
  lemma TrainingLayout(tt: TrainingTimer, c: TimerConfig)
    ensures var pre := PreWorkoutCount(c);
      var total := TotalDuration(tt.phases);
      var frames := CompileFrames(tt, c);
      && |frames| == pre + total
      && forall j :: pre <= j < |frames| ==>
        && frames[j].phase == RUNNING
        && frames[j].workoutType == tt.workoutType
        && frames[j].remainingTotalTime == total - (j - pre)
        && frames[j].time >= 1
        && 0.0 < frames[j].progress <= 1.0
        && (frames[j].progress == 1.0 <==> frames[j].time == 1)
  {
    var pre := PreWorkoutFrames(c);
    TrainingFramesAreConcatenation(tt);
    ConcatenatedFrames(FilterValidPhases(tt.phases), tt.workoutType, TotalDuration(tt.phases), 0);
    assert |pre| == PreWorkoutCount(c);
    var frames := CompileFrames(tt, c);
    forall j | |pre| <= j < |frames| ensures frames[j] == TrainingFrames(tt)[j - |pre|] {
    }
  }

  /**
   * Phase by phase: second `i` of the `p`-th phase with positive duration `d` shows time `d - i`
   * and progress `(i + 1) / d` (so `1/d` on its first second and 1 on its last), and it sits right
   * after the seconds of the phases before it.
   */
  lemma PhaseSecond(tt: TrainingTimer, p: nat, i: nat)
    requires p < |FilterValidPhases(tt.phases)| && i < FilterValidPhases(tt.phases)[p].duration
    ensures var valid := FilterValidPhases(tt.phases);
      var d := valid[p].duration;
      var j := PhaseStart(valid, p) + i;
      && j < |TrainingFrames(tt)|
      && TrainingFrames(tt)[j] == TimerFrame(RUNNING, tt.workoutType, d - i, TotalDuration(tt.phases) - j, (i + 1) as real / d as real)
  {
    var valid := FilterValidPhases(tt.phases);
    var total := TotalDuration(tt.phases);
    TrainingFramesAreConcatenation(tt);
    ConcatenatedAt(valid, tt.workoutType, total, 0, p, i);
    var d := valid[p].duration;
    var j := PhaseStart(valid, p) + i;
    assert RunningFrame(d, i, tt.workoutType, total, PhaseStart(valid, p))
        == TimerFrame(RUNNING, tt.workoutType, d - i, total - j, (i + 1) as real / d as real);
  }

  /** A zero-duration phase, wherever it stands, changes nothing in the output. */
  lemma ZeroPhaseIsInert(workoutType: WorkoutType, before: seq<TrainingTimerPhase>, zero: TrainingTimerPhase, after: seq<TrainingTimerPhase>)
    requires zero.duration == 0
    ensures TrainingFrames(TrainingTimer(workoutType, before + [zero] + after))
         == TrainingFrames(TrainingTimer(workoutType, before + after))
  {
    FilterConcat(before + [zero], after);
    FilterConcat(before, [zero]);
    FilterConcat(before, after);
    assert FilterValidPhases([zero]) == [];
    assert FilterValidPhases(before + [zero]) == FilterValidPhases(before);
  }

  /** The input of the documented scenario decodes to one TABATA phase of 3 seconds. */
  lemma ThreeSecondInputValidates()
    ensures Validate(RObject(map["workoutType" := RString("TABATA"), "phases" := RArray([RObject(map["duration" := RNumber(3)])])]))
      == Success(TrainingTimer(TABATA, [TrainingTimerPhase(3, RUndefined)]))
  {
    var input := RObject(map["workoutType" := RString("TABATA"), "phases" := RArray([RObject(map["duration" := RNumber(3)])])]);
    var phase := TrainingTimerPhase(3, RUndefined);
    var items := [RObject(map["duration" := RNumber(3)])];
    assert Field(input.fields, "workoutType") == RString("TABATA");
    assert Field(input.fields, "phases") == RArray(items);
    assert Field(items[0].fields, "exercise") == RUndefined;
    assert ParsePhase(items[0], [Key("phases"), Index(0)]) == Success(phase);
    assert ParsePhaseItems(items, 1) == Success([]);
    assert [phase] + [] == [phase];
  }

  /**
   * The documented scenario: one phase of 3 seconds and the default configuration give 15
   * frames; the last three show 3, 2, 1 with progress 1/3, 2/3, 1 and totals 3, 2, 1.
   */
  lemma ThreeSecondExample()
    ensures var frames := CompileFrames(TrainingTimer(TABATA, [TrainingTimerPhase(3, RUndefined)]), DEFAULT_CONFIG);
      && |frames| == 15
      && frames[0].phase == PLACEHOLDER
      && frames[11].phase == GO
      && frames[12..] == [
           TimerFrame(RUNNING, TABATA, 3, 3, 1.0 / 3.0),
           TimerFrame(RUNNING, TABATA, 2, 2, 2.0 / 3.0),
           TimerFrame(RUNNING, TABATA, 1, 1, 1.0)]
  {
    var phase := TrainingTimerPhase(3, RUndefined);
    var tt := TrainingTimer(TABATA, [phase]);
    var frames := CompileFrames(tt, DEFAULT_CONFIG);
    assert FilterValidPhases([phase]) == [phase];
    assert TotalDuration([phase]) == 3;
    FrameCount(tt, DEFAULT_CONFIG);
    PreWorkoutLayout(tt, DEFAULT_CONFIG);
    assert PreWorkoutCount(DEFAULT_CONFIG) == 12;
    PhaseSecond(tt, 0, 0);
    PhaseSecond(tt, 0, 1);
    PhaseSecond(tt, 0, 2);
    assert PhaseStart([phase], 0) == 0;
    assert frames[12..] == [frames[12], frames[13], frames[14]];
    assert frames[12] == TrainingFrames(tt)[0];
    assert frames[13] == TrainingFrames(tt)[1];
    assert frames[14] == TrainingFrames(tt)[2];
  }
}
