/**
 * `compileTimeline`: the segment-based compiler. A workout configuration becomes one frame per
 * displayed second: the optional pre-countdown "n" .. "1", an always present "GO!" frame, then
 * for every segment one RUNNING frame per whole second of its duration, each showing the seconds
 * left in the segment as "MM:SS". Beside it, the lookup of the frame at an elapsed time and the
 * two progress fractions.
 */
module TimelineCompiler {
  import opened Wrappers
  import opened JsText
  import opened TimerTypes
  import TimerTime

  const DEFAULT_COLOR := "bg-amber-400"
  const DEFAULT_PRE_COUNTDOWN_SECONDS := 10

  /** One second of the compiled timeline; the segment fields are set on RUNNING frames only. */
  datatype TimelineFrame = TimelineFrame(
    phase: TimerPhase,
    display: string,
    segmentType: Option<WorkoutType>,
    segmentIndex: Option<nat>,
    segmentLabel: Option<string>,
    secondInSegment: Option<nat>,
    totalSecondsInSegment: Option<nat>,
    colorClassName: string)

  /** A segment of the workout; durations are integral milliseconds. */
  datatype WorkoutSegment = WorkoutSegment(
    segmentType: WorkoutType,
    durationMs: int,
    segmentLabel: Option<string>,
    colorClassName: Option<string>)

  /** The configuration; `None` is a property left out (or `undefined`), which takes its default. */
  datatype WorkoutConfig = WorkoutConfig(
    segments: seq<WorkoutSegment>,
    includePreCountdown: Option<bool>,
    preCountdownSeconds: Option<int>,
    defaultColorClassName: Option<string>)

  function Max0(n: int): nat { if n > 0 then n else 0 }

  // ---------------------------------------------------------------------------------------
  // Frame builders

  /**
   * `formatSecondsDisplay(seconds)`: the same "MM:SS" layout as `formatTime(seconds)`, the
   * minutes not clamped; the string reads back as the seconds it was made from.
   */
  function FormatSecondsDisplay(seconds: nat): (s: string)
    ensures |s| >= 5 && s[|s| - 3] == ':'
    ensures |s| == 5 <==> seconds < 6000
  {
    TimerTime.FormatTimeLength(seconds);
    TimerTime.FormatTime(seconds)
  }

  lemma FormatSecondsDisplayReadsBack(seconds: nat)
    ensures TimerTime.IsClock(FormatSecondsDisplay(seconds))
    ensures TimerTime.ReadClock(FormatSecondsDisplay(seconds)) == seconds
    ensures seconds < 6000 ==> |FormatSecondsDisplay(seconds)| == 5
  {
    TimerTime.FormatTimeLayout(seconds);
    TimerTime.FormatTimeLength(seconds);
  }

  function PreCountdownFrame(i: nat, colorClassName: string): (f: TimelineFrame)
    ensures f.phase == PRE_COUNTDOWN && AllDigits(f.display) && DecimalValue(f.display) == i
    ensures f.segmentIndex.None? && f.secondInSegment.None? && f.totalSecondsInSegment.None?
    ensures f.colorClassName == colorClassName
  {
    DecimalValueOfNatToString(i);
    TimelineFrame(PRE_COUNTDOWN, NatToString(i), None, None, None, None, None, colorClassName)
  }

  /**
   * The frames `generatePreCountdownFrames(seconds, colour)` pushes: "seconds" down to "1", one
   * per step, and none when `seconds < 1`.
   */
  function PreCountdownFrames(seconds: int, colorClassName: string): (r: seq<TimelineFrame>)
    ensures |r| == Max0(seconds)
  {
    var n := Max0(seconds);
    seq(n, k requires 0 <= k < n => PreCountdownFrame(seconds - k, colorClassName))
  }

  /** Frame `k` of the pre-countdown shows `seconds - k`, in the default colour, outside every segment. */
  lemma PreCountdownFramesShape(seconds: int, colorClassName: string)
    ensures var r := PreCountdownFrames(seconds, colorClassName);
      forall k :: 0 <= k < |r| ==>
        && r[k].phase == PRE_COUNTDOWN
        && AllDigits(r[k].display) && DecimalValue(r[k].display) == seconds - k
        && r[k].segmentIndex.None? && r[k].secondInSegment.None? && r[k].totalSecondsInSegment.None?
        && r[k].colorClassName == colorClassName
  {
    var r := PreCountdownFrames(seconds, colorClassName);
    forall k | 0 <= k < |r|
      ensures r[k] == PreCountdownFrame(seconds - k, colorClassName)
    {
    }
  }

  method GeneratePreCountdownFrames(seconds: int, colorClassName: string) returns (frames: seq<TimelineFrame>)
    ensures frames == PreCountdownFrames(seconds, colorClassName)
  {
    frames := [];
    ghost var all := PreCountdownFrames(seconds, colorClassName);
    var i := seconds;
    while i >= 1
      invariant i <= seconds && (seconds >= 1 ==> i >= 0)
      invariant frames == all[..Max0(seconds) - Max0(i)]
      decreases i
    {
      var frame := PreCountdownFrame(i, colorClassName);
      assert all[seconds - i] == frame;
      TakeSnoc(all, seconds - i);
      frames := frames + [frame];
      i := i - 1;
    }
    assert all[..Max0(seconds)] == all;
  }

  function GoFrame(colorClassName: string): (r: TimelineFrame)
    ensures r.phase == GO && r.display == "GO!" && r.colorClassName == colorClassName
    ensures r.segmentIndex.None? && r.secondInSegment.None? && r.totalSecondsInSegment.None?
  {
    TimelineFrame(GO, "GO!", None, None, None, None, None, colorClassName)
  }

  method GenerateGoFrame(colorClassName: string) returns (frame: TimelineFrame)
    ensures frame == GoFrame(colorClassName)
  {
    frame := TimelineFrame(GO, "GO!", None, None, None, None, None, colorClassName);
  }

  /** `Math.floor(durationMs / 1000)` when positive: the number of frames a segment yields. */
  function SegmentSeconds(segment: WorkoutSegment): nat {
    Max0(segment.durationMs / 1000)
  }

  /** The whole seconds of a segment: a partial second adds no frame, a non-positive duration none at all. */
  lemma SegmentSecondsBounds(segment: WorkoutSegment)
    ensures SegmentSeconds(segment) * 1000 <= Max0(segment.durationMs) < (SegmentSeconds(segment) + 1) * 1000
  {
  }

  /** The colour of a segment's frames: its own override, else the default (`??`). */
  function SegmentColor(segment: WorkoutSegment, defaultColor: string): (c: string)
    ensures segment.colorClassName.Some? ==> c == segment.colorClassName.value
    ensures segment.colorClassName.None? ==> c == defaultColor
  {
    segment.colorClassName.GetOr(defaultColor)
  }

  /** The object `generateSegmentFrames` pushes for `second` of a `totalSeconds`-second segment. */
  function RunningFrame(segment: WorkoutSegment, segmentIndex: nat, second: nat, totalSeconds: nat, colorClassName: string): TimelineFrame
    requires second < totalSeconds
  {
    var remainingSeconds := totalSeconds - second;
    TimelineFrame(
      RUNNING,
      FormatSecondsDisplay(remainingSeconds),
      Some(segment.segmentType),
      Some(segmentIndex),
      segment.segmentLabel,
      Some(second),
      Some(totalSeconds),
      colorClassName)
  }

  /** The frame for `second` (0-based) of segment number `segmentIndex`. */
  function SegmentFrame(segment: WorkoutSegment, segmentIndex: nat, defaultColor: string, second: nat): (f: TimelineFrame)
    requires second < SegmentSeconds(segment)
    ensures IsSegmentFrame(f) && f.segmentIndex == Some(segmentIndex) && f.segmentType == Some(segment.segmentType)
    ensures f.secondInSegment == Some(second) && f.totalSecondsInSegment == Some(SegmentSeconds(segment))
    ensures f.colorClassName == SegmentColor(segment, defaultColor)
  {
    RunningFrame(segment, segmentIndex, second, SegmentSeconds(segment), SegmentColor(segment, defaultColor))
  }

  /** A RUNNING frame as the segment builder makes them: a second within a non-empty segment. */
  predicate IsSegmentFrame(f: TimelineFrame) {
    && f.phase == RUNNING
    && f.secondInSegment.Some? && f.totalSecondsInSegment.Some? && f.segmentIndex.Some?
    && f.secondInSegment.value < f.totalSecondsInSegment.value
  }

  /**
   * The frames `generateSegmentFrames` pushes: seconds 0 .. n-1 of an n-second segment, each
   * showing the n - second seconds left, carrying the segment's type, label, index and colour.
   */
  function SegmentFrames(segment: WorkoutSegment, segmentIndex: nat, defaultColor: string): (r: seq<TimelineFrame>)
    ensures |r| == SegmentSeconds(segment)
  {
    var n := SegmentSeconds(segment);
    seq(n, s requires 0 <= s < n => SegmentFrame(segment, segmentIndex, defaultColor, s))
  }

  /** Second `s` of a segment's frames is a RUNNING frame of that second, that segment and its colour. */
  lemma SegmentFramesShape(segment: WorkoutSegment, segmentIndex: nat, defaultColor: string)
    ensures var r := SegmentFrames(segment, segmentIndex, defaultColor);
      forall s :: 0 <= s < |r| ==>
        && IsSegmentFrame(r[s])
        && r[s].secondInSegment == Some(s)
        && r[s].totalSecondsInSegment == Some(|r|)
        && r[s].segmentIndex == Some(segmentIndex)
        && r[s].segmentType == Some(segment.segmentType)
        && r[s].segmentLabel == segment.segmentLabel
        && r[s].colorClassName == SegmentColor(segment, defaultColor)
  {
  }

  /** Each segment frame shows, as "MM:SS", the seconds left in its segment counting itself. */
  lemma SegmentFrameDisplay(segment: WorkoutSegment, segmentIndex: nat, defaultColor: string, second: nat)
    requires second < SegmentSeconds(segment)
    ensures TimerTime.IsClock(SegmentFrame(segment, segmentIndex, defaultColor, second).display)
    ensures TimerTime.ReadClock(SegmentFrame(segment, segmentIndex, defaultColor, second).display)
         == SegmentSeconds(segment) - second
  {
    FormatSecondsDisplayReadsBack(SegmentSeconds(segment) - second);
  }

  method GenerateSegmentFrames(segment: WorkoutSegment, segmentIndex: nat, defaultColor: string)
    returns (frames: seq<TimelineFrame>)
    ensures frames == SegmentFrames(segment, segmentIndex, defaultColor)
  {
    frames := [];
    var totalSeconds := segment.durationMs / 1000;
    var colorClassName := segment.colorClassName.GetOr(defaultColor);
    ghost var n := SegmentSeconds(segment);
    ghost var all := SegmentFrames(segment, segmentIndex, defaultColor);
    assert totalSeconds <= n && (totalSeconds > 0 ==> totalSeconds == n);
    var second := 0;
    while second < totalSeconds
      invariant 0 <= second <= n
      invariant frames == all[..second]
    {
      var frame := RunningFrame(segment, segmentIndex, second, totalSeconds, colorClassName);
      assert totalSeconds == n && colorClassName == SegmentColor(segment, defaultColor);
      SegmentFramesAt(segment, segmentIndex, defaultColor, second);
      assert frame == all[second];
      TakeSnoc(all, second);
      frames := frames + [frame];
      second := second + 1;
    }
    assert all[..second] == all;
  }

  /** Extending a prefix by one element. */
  lemma TakeSnoc<T>(s: seq<T>, i: nat)
    requires i < |s|
    ensures s[..i + 1] == s[..i] + [s[i]]
  {
  }

  // ---------------------------------------------------------------------------------------
  // The timeline

  /** Total whole seconds over a list of segments. */
  function TotalSeconds(segments: seq<WorkoutSegment>): nat
    decreases |segments|
  {
    if segments == [] then 0
    else TotalSeconds(segments[..|segments| - 1]) + SegmentSeconds(segments[|segments| - 1])
  }

  /** The frames of all segments, in order, each tagged with its segment's position. */
  function AllSegmentFrames(segments: seq<WorkoutSegment>, defaultColor: string): (r: seq<TimelineFrame>)
    ensures |r| == TotalSeconds(segments)
    decreases |segments|
  {
    if segments == [] then []
    else
      var n := |segments| - 1;
      AllSegmentFrames(segments[..n], defaultColor) + SegmentFrames(segments[n], n, defaultColor)
  }

  function IncludePreCountdown(config: WorkoutConfig): bool { config.includePreCountdown.GetOr(true) }

  function PreCountdownSeconds(config: WorkoutConfig): int {
    config.preCountdownSeconds.GetOr(DEFAULT_PRE_COUNTDOWN_SECONDS)
  }

  function DefaultColor(config: WorkoutConfig): string { config.defaultColorClassName.GetOr(DEFAULT_COLOR) }

  /** The number of frames before the GO frame. */
  function PreCount(config: WorkoutConfig): nat {
    if IncludePreCountdown(config) then Max0(PreCountdownSeconds(config)) else 0
  }

  /** The frames before the first segment: the pre-countdown (when enabled), then GO. */
  function Head(config: WorkoutConfig): (r: seq<TimelineFrame>)
    ensures |r| == PreCount(config) + 1
  {
    var dc := DefaultColor(config);
    (if IncludePreCountdown(config) then PreCountdownFrames(PreCountdownSeconds(config), dc) else [])
    + [GoFrame(dc)]
  }

  /** The compiled timeline: pre-countdown (when enabled), GO, then the segments' frames. */
  function Timeline(config: WorkoutConfig): (r: seq<TimelineFrame>)
    ensures |r| == PreCount(config) + 1 + TotalSeconds(config.segments)
  {
    Head(config) + AllSegmentFrames(config.segments, DefaultColor(config))
  }

  method CompileTimeline(config: WorkoutConfig) returns (timeline: seq<TimelineFrame>)
    ensures timeline == Timeline(config)
  {
    var includePreCountdown := config.includePreCountdown.GetOr(true);
    var preCountdownSeconds := config.preCountdownSeconds.GetOr(DEFAULT_PRE_COUNTDOWN_SECONDS);
    var defaultColorClassName := config.defaultColorClassName.GetOr(DEFAULT_COLOR);
    timeline := [];
    if includePreCountdown {
      var pre := GeneratePreCountdownFrames(preCountdownSeconds, defaultColorClassName);
      timeline := timeline + pre;
    }
    var go := GenerateGoFrame(defaultColorClassName);
    timeline := timeline + [go];
    ghost var head := timeline;
    assert head == Head(config);
    var segments := config.segments;
    var index := 0;
    while index < |segments|
      invariant 0 <= index <= |segments|
      invariant timeline == head + AllSegmentFrames(segments[..index], defaultColorClassName)
    {
      var frames := GenerateSegmentFrames(segments[index], index, defaultColorClassName);
      AllSegmentFramesSnoc(segments, defaultColorClassName, index);
      ConcatAssoc(head, AllSegmentFrames(segments[..index], defaultColorClassName), frames);
      timeline := timeline + frames;
      index := index + 1;
    }
    assert segments[..index] == segments;
  }

  /** The timeline has the pre-countdown seconds (when enabled), one GO frame, and every segment's whole seconds. */
  lemma TimelineLength(config: WorkoutConfig)
    ensures |Timeline(config)| == PreCount(config) + 1 + TotalSeconds(config.segments)
  {
  }

  /**
   * The order of the head of the timeline: "n", "n-1", .., "1" at positions 0 .. n-1, then "GO!"
   * at position n, all in the default colour.
   */
  lemma PreCountdownLayout(config: WorkoutConfig)
    ensures forall k :: 0 <= k < PreCount(config) ==>
      && Timeline(config)[k].phase == PRE_COUNTDOWN
      && AllDigits(Timeline(config)[k].display)
      && DecimalValue(Timeline(config)[k].display) == PreCountdownSeconds(config) - k
      && Timeline(config)[k].colorClassName == DefaultColor(config)
    ensures Timeline(config)[PreCount(config)] == GoFrame(DefaultColor(config))
  {
    var dc := DefaultColor(config);
    var pre := if IncludePreCountdown(config) then PreCountdownFrames(PreCountdownSeconds(config), dc) else [];
    var tail := AllSegmentFrames(config.segments, dc);
    assert Timeline(config) == pre + [GoFrame(dc)] + tail;
    PreCountdownFramesShape(PreCountdownSeconds(config), dc);
    forall k | 0 <= k < PreCount(config)
      ensures Timeline(config)[k] == pre[k]
    {
    }
    assert Timeline(config)[|pre|] == GoFrame(dc);
  }

  /**
   * Frame `s` of segment `j` sits just after the GO frame and the frames of segments 0 .. j-1,
   * and is the frame the segment builder makes for that second.
   */
  lemma AllSegmentFramesAt(segments: seq<WorkoutSegment>, dc: string, j: nat, s: nat)
    requires j < |segments| && s < SegmentSeconds(segments[j])
    ensures TotalSeconds(segments[..j]) + s < |AllSegmentFrames(segments, dc)|
    ensures AllSegmentFrames(segments, dc)[TotalSeconds(segments[..j]) + s] == SegmentFrames(segments[j], j, dc)[s]
  {
    AllSegmentFramesLength(segments, dc, j, s);
    AllSegmentFramesFrame(segments, dc, j, s);
  }

  lemma AllSegmentFramesLength(segments: seq<WorkoutSegment>, dc: string, j: nat, s: nat)
    requires j < |segments| && s < SegmentSeconds(segments[j])
    ensures TotalSeconds(segments[..j]) + s < |AllSegmentFrames(segments, dc)|
  {
    SegmentPartsPrefix(segments, dc, j);
    AllSegmentFramesFlatten(segments, dc);
    AllSegmentFramesFlatten(segments[..j], dc);
    FlattenAt(SegmentParts(segments, dc), j, s);
  }

  lemma AllSegmentFramesFrame(segments: seq<WorkoutSegment>, dc: string, j: nat, s: nat)
    requires j < |segments| && s < SegmentSeconds(segments[j])
    requires TotalSeconds(segments[..j]) + s < |AllSegmentFrames(segments, dc)|
    ensures AllSegmentFrames(segments, dc)[TotalSeconds(segments[..j]) + s] == SegmentFrames(segments[j], j, dc)[s]
  {
    // the position is passed as one term so that both sides index at it
    var pos := TotalSeconds(segments[..j]) + s;
    FlattenPrefixLength(segments, dc, j);
    AllSegmentFramesFlatten(segments, dc);
    FlattenAtPos(SegmentParts(segments, dc), j, s, pos);
  }

  lemma FlattenPrefixLength(segments: seq<WorkoutSegment>, dc: string, j: nat)
    requires j < |segments|
    ensures |Flatten(SegmentParts(segments, dc)[..j])| == TotalSeconds(segments[..j])
    ensures SegmentParts(segments, dc)[j] == SegmentFrames(segments[j], j, dc)
  {
    SegmentPartsPrefix(segments, dc, j);
    AllSegmentFramesFlatten(segments[..j], dc);
  }

  lemma SegmentPartsPrefix(segments: seq<WorkoutSegment>, dc: string, j: nat)
    requires j < |segments|
    ensures SegmentParts(segments, dc)[..j] == SegmentParts(segments[..j], dc)
    ensures SegmentParts(segments, dc)[j] == SegmentFrames(segments[j], j, dc)
  {
    assert SegmentParts(segments, dc)[..j] == SegmentParts(segments[..j], dc);
  }

  /** The frame lists of the segments, one per segment. */
  function SegmentParts(segments: seq<WorkoutSegment>, dc: string): seq<seq<TimelineFrame>> {
    seq(|segments|, i requires 0 <= i < |segments| => SegmentFrames(segments[i], i, dc))
  }

  /** The lists of a sequence of lists, one after another. */
  function Flatten<T>(parts: seq<seq<T>>): seq<T>
    decreases |parts|
  {
    if parts == [] then [] else Flatten(parts[..|parts| - 1]) + parts[|parts| - 1]
  }

  lemma {:induction false} AllSegmentFramesFlatten(segments: seq<WorkoutSegment>, dc: string)
    ensures AllSegmentFrames(segments, dc) == Flatten(SegmentParts(segments, dc))
    decreases |segments|
  {
    if segments != [] {
      var n := |segments| - 1;
      AllSegmentFramesFlatten(segments[..n], dc);
      assert SegmentParts(segments, dc)[..n] == SegmentParts(segments[..n], dc);
    }
  }

  /** `FlattenAt` with the position given as one term. */
  lemma FlattenAtPos<T>(parts: seq<seq<T>>, j: nat, s: nat, pos: nat)
    requires j < |parts| && s < |parts[j]| && pos == |Flatten(parts[..j])| + s
    ensures pos < |Flatten(parts)| && Flatten(parts)[pos] == parts[j][s]
  {
    FlattenAt(parts, j, s);
  }

  /** Element `s` of list `j` sits after the elements of lists 0 .. j-1. */
  lemma {:induction false} FlattenAt<T>(parts: seq<seq<T>>, j: nat, s: nat)
    requires j < |parts| && s < |parts[j]|
    ensures |Flatten(parts[..j])| + s < |Flatten(parts)|
    ensures Flatten(parts)[|Flatten(parts[..j])| + s] == parts[j][s]
    decreases |parts|
  {
    var n := |parts| - 1;
    var front := parts[..n];
    assert Flatten(parts) == Flatten(front) + parts[n];
    if j < n {
      assert front[..j] == parts[..j];
      assert front[j] == parts[j];
      FlattenAt(front, j, s);
      var pos := |Flatten(parts[..j])| + s;
      assert (Flatten(front) + parts[n])[pos] == Flatten(front)[pos];
    } else {
      assert front == parts[..j];
      assert (Flatten(front) + parts[n])[|Flatten(front)| + s] == parts[n][s];
    }
  }

  lemma SegmentFramesAt(segment: WorkoutSegment, segmentIndex: nat, defaultColor: string, s: nat)
    requires s < SegmentSeconds(segment)
    ensures SegmentFrames(segment, segmentIndex, defaultColor)[s] == SegmentFrame(segment, segmentIndex, defaultColor, s)
  {
  }

  lemma ConcatAssoc<T>(a: seq<T>, b: seq<T>, c: seq<T>)
    ensures (a + b) + c == a + (b + c)
  {
  }

  /** Appending one segment appends its frames. */
  lemma AllSegmentFramesSnoc(segments: seq<WorkoutSegment>, dc: string, i: nat)
    requires i < |segments|
    ensures AllSegmentFrames(segments[..i + 1], dc) == AllSegmentFrames(segments[..i], dc) + SegmentFrames(segments[i], i, dc)
  {
    assert segments[..i + 1][..i] == segments[..i];
  }

  /** Every frame after the GO frame is a RUNNING frame of some segment. */
  lemma {:induction false} AllSegmentFramesRunning(segments: seq<WorkoutSegment>, dc: string)
    ensures forall k :: 0 <= k < |AllSegmentFrames(segments, dc)| ==> IsSegmentFrame(AllSegmentFrames(segments, dc)[k])
    decreases |segments|
  {
    if segments != [] {
      var n := |segments| - 1;
      AllSegmentFramesRunning(segments[..n], dc);
      var a, b := AllSegmentFrames(segments[..n], dc), SegmentFrames(segments[n], n, dc);
      SegmentFramesShape(segments[n], n, dc);
      assert AllSegmentFrames(segments, dc) == a + b;
      forall k | 0 <= k < |a + b|
        ensures IsSegmentFrame((a + b)[k])
      {
        if k < |a| {
          assert (a + b)[k] == a[k];
        } else {
          assert (a + b)[k] == b[k - |a|];
        }
      }
    }
  }

  /** The position in the compiled timeline of second `s` of segment `j`, with its exact frame. */
  lemma SegmentSecond(config: WorkoutConfig, j: nat, s: nat)
    requires j < |config.segments| && s < SegmentSeconds(config.segments[j])
    ensures PreCount(config) + 1 + TotalSeconds(config.segments[..j]) + s < |Timeline(config)|
    ensures Timeline(config)[PreCount(config) + 1 + TotalSeconds(config.segments[..j]) + s]
         == SegmentFrame(config.segments[j], j, DefaultColor(config), s)
  {
    AllSegmentFramesAt(config.segments, DefaultColor(config), j, s);
    SegmentSecondFrame(config, j, s);
  }

  lemma SegmentSecondFrame(config: WorkoutConfig, j: nat, s: nat)
    requires j < |config.segments| && s < SegmentSeconds(config.segments[j])
    requires TotalSeconds(config.segments[..j]) + s < |AllSegmentFrames(config.segments, DefaultColor(config))|
    requires AllSegmentFrames(config.segments, DefaultColor(config))[TotalSeconds(config.segments[..j]) + s]
          == SegmentFrames(config.segments[j], j, DefaultColor(config))[s]
    ensures PreCount(config) + 1 + TotalSeconds(config.segments[..j]) + s < |Timeline(config)|
    ensures Timeline(config)[PreCount(config) + 1 + TotalSeconds(config.segments[..j]) + s]
         == SegmentFrame(config.segments[j], j, DefaultColor(config), s)
  {
    SegmentFramesAt(config.segments[j], j, DefaultColor(config), s);
    AppendAt(Head(config), AllSegmentFrames(config.segments, DefaultColor(config)),
      TotalSeconds(config.segments[..j]) + s, PreCount(config) + 1 + TotalSeconds(config.segments[..j]) + s);
  }

  /** Element `k` of `b` is element `pos` of `a + b`, with the position given as one term. */
  lemma AppendAt<T>(a: seq<T>, b: seq<T>, k: nat, pos: nat)
    requires k < |b| && pos == |a| + k
    ensures pos < |a + b| && (a + b)[pos] == b[k]
  {
  }

  // ---------------------------------------------------------------------------------------
  // Lookup and progress

  /** `getTimelineDurationMs`: one second per frame. */
  function TimelineDurationMs(timeline: seq<TimelineFrame>): (ms: nat)
    ensures ms / 1000 == |timeline| && ms % 1000 == 0
  {
    |timeline| * 1000
  }

  datatype FrameAt = FrameAt(frame: Option<TimelineFrame>, index: int)

  /**
   * `getFrameAtTime(timeline, elapsedMs)`: the frame of second `floor(elapsedMs / 1000)`,
   * clamped to the first and the last frame. On an empty timeline there is no frame, and the
   * index is 0 before the start and -1 otherwise.
   */
  function FrameAtTime(timeline: seq<TimelineFrame>, elapsedMs: real): (r: FrameAt)
    ensures timeline == [] ==> r.frame.None? && r.index == (if elapsedMs < 0.0 then 0 else -1)
    ensures timeline != [] ==> 0 <= r.index < |timeline| && r.frame == Some(timeline[r.index])
    ensures elapsedMs < 0.0 && timeline != [] ==> r.index == 0
    ensures 0.0 <= elapsedMs < TimelineDurationMs(timeline) as real ==>
      (r.index * 1000) as real <= elapsedMs < ((r.index + 1) * 1000) as real
    ensures timeline != [] && elapsedMs >= TimelineDurationMs(timeline) as real ==> r.index == |timeline| - 1
  {
    var index := (elapsedMs / 1000.0).Floor;
    if index < 0 then FrameAt(if timeline == [] then None else Some(timeline[0]), 0)
    else if index >= |timeline| then
      FrameAt(if timeline == [] then None else Some(timeline[|timeline| - 1]), |timeline| - 1)
    else FrameAt(Some(timeline[index]), index)
  }

  /** `calculateTimelineProgress`: the index as a fraction of the last index, 1 for a timeline of at most one frame. */
  function TimelineProgress(timeline: seq<TimelineFrame>, currentIndex: int): (r: real)
    ensures |timeline| <= 1 ==> r == 1.0
    ensures |timeline| > 1 ==> r * (|timeline| - 1) as real == currentIndex as real
    ensures |timeline| > 1 && 0 <= currentIndex < |timeline| ==> 0.0 <= r <= 1.0
    ensures |timeline| > 1 ==> (r == 0.0 <==> currentIndex == 0) && (r == 1.0 <==> currentIndex == |timeline| - 1)
  {
    if |timeline| <= 1 then 1.0 else currentIndex as real / (|timeline| - 1) as real
  }

  /**
   * `calculateSegmentProgress(frame)`: 0 with no frame and during the pre-countdown, 1 on GO, the
   * fraction `(second + 1) / total` on a RUNNING frame that carries a positive total, else 0.
   */
  function SegmentProgress(frame: Option<TimelineFrame>): (r: real)
    ensures frame.None? || frame.value.phase == PRE_COUNTDOWN ==> r == 0.0
    ensures frame.Some? && frame.value.phase == GO ==> r == 1.0
    ensures frame.Some? && IsSegmentFrame(frame.value) ==>
      && 0.0 < r <= 1.0
      && r * frame.value.totalSecondsInSegment.value as real == (frame.value.secondInSegment.value + 1) as real
      && (r == 1.0 <==> frame.value.secondInSegment.value + 1 == frame.value.totalSecondsInSegment.value)
  {
    match frame
    case None => 0.0
    case Some(f) =>
      if f.phase == PRE_COUNTDOWN then 0.0
      else if f.phase == GO then 1.0
      else if f.secondInSegment.Some? && f.totalSecondsInSegment.Some? && f.totalSecondsInSegment.value > 0 then
        Fraction(f.secondInSegment.value + 1, f.totalSecondsInSegment.value);
        (f.secondInSegment.value + 1) as real / f.totalSecondsInSegment.value as real
      else 0.0
  }

  /** `a / b` for positive `a` and `b`: in (0, 1] when `a <= b`, and 1 exactly when `a == b`. */
  lemma Fraction(a: nat, b: nat)
    requires 0 < a && 0 < b
    ensures var r := a as real / b as real;
      && r * b as real == a as real
      && (a <= b ==> 0.0 < r <= 1.0 && (r == 1.0 <==> a == b))
  {
    var r := a as real / b as real;
    assert r * b as real == a as real;
    assert 0.0 < r;
    assert (1.0 - r) * b as real == (b - a) as real;
    if a == b {
      assert r == 1.0;
    } else if a < b {
      assert 0.0 < (1.0 - r) * b as real;
      assert r < 1.0;
    }
  }

  /**
   * Over a compiled timeline the segment progress is 0 before GO, 1 on GO, and on every later
   * frame a fraction in (0, 1] that is 1 exactly on the last second of its segment.
   */
  lemma TimelineSegmentProgress(config: WorkoutConfig, k: nat)
    requires k < |Timeline(config)|
    ensures k < PreCount(config) ==> SegmentProgress(Some(Timeline(config)[k])) == 0.0
    ensures k == PreCount(config) ==> SegmentProgress(Some(Timeline(config)[k])) == 1.0
    ensures k > PreCount(config) ==> IsSegmentFrame(Timeline(config)[k]) && 0.0 < SegmentProgress(Some(Timeline(config)[k])) <= 1.0
  {
    var dc := DefaultColor(config);
    var head, tail := Head(config), AllSegmentFrames(config.segments, dc);
    assert Timeline(config) == head + tail;
    if k < PreCount(config) {
      PreCountdownFramesShape(PreCountdownSeconds(config), dc);
      assert Timeline(config)[k] == head[k];
    } else if k == PreCount(config) {
      assert head[k] == GoFrame(dc);
      assert Timeline(config)[k] == head[k];
    } else {
      AllSegmentFramesRunning(config.segments, dc);
      assert Timeline(config)[k] == tail[k - |head|];
    }
  }
}
