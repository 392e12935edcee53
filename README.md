# wod-trainner workout timer and liquid-metal helpers, modelled in Dafny

This project models the logic of the workout timer app wod-trainner. It covers two parts.

**The timer.**
- `createTimer` checks raw input against the training-timer schema. It then turns it into a list of one-second frames:
  - an optional placeholder;
  - a countdown;
  - an optional GO frame;
  - one running frame per second of every phase, carrying the per-phase progress and the remaining workout time.
- The newer segment compiler `compileTimeline` builds a display timeline from workout segments. It comes with lookups by elapsed time and progress helpers.
- Small formatting utilities: `formatTime`, `calculateProgress`, `bgToTextColor`.
- Three state machines behind the React hooks:
  - `useFrameTick` is a once-per-second ticker on the animation frame callback;
  - `useTimer` is a play/pause/reset timer over a compiled timeline;
  - `useTimerNew` drives the ticker over a compiled training timer.

**The liquid-metal UI helpers.**
- The Poisson-solver image preprocessing: alpha mask, boundary/interior split, neighbour table, red-black SOR relaxation, grey output image.
- `findContentBounds` and `cropPixels`.
- The two `parseColor` variants:
  - the full one, for `#rgb`, `#rrggbb`, `#rrggbbaa` and `rgb()/rgba()` text;
  - the hex-only one of the text component.
- The colour presets, the font-weight table and the shader option codes.

**How the model is built.**
- Pure code is modelled as datatypes and functions, with lemmas about them.
- Code that loops or updates state in place is modelled imperatively, proved against those functions:
  - the compiler loops;
  - the image preprocessing over `array`s;
  - the hooks as classes whose fields are the hook state.
- Raw JSON input is the datatype `Raw`.
- Validation reports zod's list of issues, in zod's order; the thrown `ZodError` is the non-empty list.
- JavaScript numbers are modelled exactly:
  - as `int`/`nat` where the code only counts;
  - as `real` where it divides;
  - as `JsNum` (a number or NaN) where `parseInt`/`parseFloat` can return NaN.

**Inputs and effects.**
- Timestamps (`performance.now`, the frame timestamps) are parameters.
- Callbacks (`onTick`, `onComplete`, `onFrameChange`) are recorded as a list of events on the class. The optional ones (`onComplete` of the ticker, both callbacks of `useTimer`) are flags fixed at construction; without the callback nothing is recorded.
- The image bytes are a parameter; rasterising and fetching are not modelled.

**Behaviour worth noting.**
- Phase durations do not have to be integers. The phase schema only requires them to be nonnegative (modules/timer/domain/TrainingTimer.ts:6).
- Validation does not stop at the first problem. zod collects every issue of the object schema (modules/timer/domain/TrainingTimer.ts:10-13), and the first one carries the path, e.g. `phases[2].duration`.
- The ticker's completion callback does not fire on the tick that reaches `maxTicks`. The check at the top of the frame callback fires it on the next frame after the last tick (modules/timer/hooks/useFrameTick.ts:27-32).

## Model

| member | source | states |
|---|---|---|
| TimerCompiler.ResolveConfig | modules/timer/domain/Timer.ts:117-119 | an omitted option takes its default (10-second countdown, placeholder and GO shown), a given one is kept, an explicit `undefined` acts as 0/false |
| TimerCompiler.PlaceholderFrame | modules/timer/domain/Timer.ts:37-44 | the placeholder is a PLACEHOLDER frame of type REST with progress 0 |
| TimerCompiler.CountdownFrames | modules/timer/domain/Timer.ts:46-55 | `duration` PRE_COUNTDOWN frames of type REST whose time runs from `duration` down to 1 |
| TimerCompiler.GoFrame | modules/timer/domain/Timer.ts:57-64 | the GO frame is a GO frame of type REST with progress 0 |
| TimerCompiler.PreWorkoutFrames | modules/timer/domain/Timer.ts:66-70 | as many frames as the placeholder (0/1), the countdown and GO (0/1) together |
| TimerCompiler.PhaseFrames | modules/timer/domain/Timer.ts:73-90 | one RUNNING frame of the workout type per second of the phase, time from the duration down and remaining time from `totalTime - elapsedFrames` down |
| TimerCompiler.Reduce | modules/timer/domain/Timer.ts:96-111 | folding the phases advances the elapsed count by their total duration and appends one frame per second |
| TimerCompiler.TrainingFrames | modules/timer/domain/Timer.ts:92-114 | one training frame per second of the total duration (zero-length phases add none) |
| TimerCompiler.CompileFrames | modules/timer/domain/Timer.ts:121-123 | the timer has the pre-workout frames plus one frame per second of training |
| TimerCompiler.CreateTimer | modules/timer/domain/Timer.ts:117-123 | fails exactly when validation fails, with its issues; on success the frame count is the pre-workout count plus the total duration |
| TimerCompiler.FilterValidPhases | modules/timer/domain/Timer.ts:33-34 | the filtered list is no longer than the input |
| TimerCompiler.FilterValidPhasesKeeps | modules/timer/domain/Timer.ts:33-34 | a phase is kept exactly when it occurs in the input with a positive duration |
| TimerCompiler.FilterKeepsTotal | modules/timer/domain/Timer.ts:93-94 | dropping zero-length phases does not change the total duration, so the remaining time is unaffected |
| TimerCompiler.FilterConcat | modules/timer/domain/Timer.ts:33-34 | filtering distributes over concatenation of phase lists |
| TimerCompiler.ReduceIsConcatenation | modules/timer/domain/Timer.ts:96-111 | the `reduce` accumulator ends with the frames of all phases appended in order and the elapsed count advanced by the total duration |
| TimerCompiler.ConcatenatedFrames | modules/timer/domain/Timer.ts:73-90 | one running frame per second of the phases, of the workout type, remaining time counting down by one, time at least 1, progress in (0, 1] and 1 exactly on a phase's last second |
| TimerCompiler.ProgressFacts | modules/timer/domain/Timer.ts:87 | `(i + 1) / duration` lies in (0, 1] and is 1 only at the last second |
| TimerCompiler.ConcatenatedAt | modules/timer/domain/Timer.ts:92-111 | second `i` of phase `p` sits at the phase's start offset plus `i` and is that phase's running frame |
| TimerCompiler.ConcatenatedHead | modules/timer/domain/Timer.ts:73-90 | the first phase's frames open the sequence |
| TimerCompiler.ConcatenatedTail | modules/timer/domain/Timer.ts:96-108 | after the first phase, the frames are those of the remaining phases started later |
| TimerCompiler.TotalDurationSplit | modules/timer/domain/Timer.ts:94 | the total duration splits at any phase boundary |
| TimerCompiler.CreateTimerValidates | modules/timer/domain/Timer.ts:117-123 | `createTimer` fails exactly when schema validation fails, with the same issues; otherwise its frames are the compiled frames under the merged config |
| TimerCompiler.TrainingFramesAreConcatenation | modules/timer/domain/Timer.ts:92-114 | the training frames are the concatenated frames of the positive phases, one per second of the total duration |
| TimerCompiler.FrameCount | modules/timer/domain/Timer.ts:117-123 | frame count = placeholder (0/1) + countdown + GO (0/1) + total duration |
| TimerCompiler.PreWorkoutLayout | modules/timer/domain/Timer.ts:37-70 | placeholder first, countdown frames from `countdownDuration` down to 1, then GO, all REST and none RUNNING |
| TimerCompiler.TrainingLayout | modules/timer/domain/Timer.ts:81-111 | after the pre-workout frames every frame is RUNNING with the workout type, remaining time from the total down to 1, progress in (0, 1] |
| TimerCompiler.PhaseSecond | modules/timer/domain/Timer.ts:81-89 | second `i` of a valid phase of duration `d` shows time `d - i`, progress `(i + 1)/d` and the total minus its position as remaining time |
| TimerCompiler.ZeroPhaseIsInert | modules/timer/domain/Timer.ts:33-34 | inserting a zero-length phase anywhere leaves the training frames unchanged |
| TimerCompiler.ThreeSecondInputValidates | modules/timer/domain/Timer.test.ts:12-18 | the TABATA input with one 3-second phase validates to that training timer |
| TimerCompiler.ThreeSecondExample | modules/timer/domain/Timer.test.ts:12-35 | with the defaults it yields 15 frames: placeholder, 10 countdown, GO, then 3/3, 2/2, 1/1 with progress 1/3, 2/3, 1 |
| TimerTypes.WorkoutTypeFromName | modules/timer/domain/TrainingTimer.ts:11 | a name maps to the workout type of that name, and no type exists when none is returned |
| TrainingTimerSchema.ParsePhaseItemsCorrect | modules/timer/domain/TrainingTimer.ts:5-8 | the phase array parses exactly when every item is a phase object; each parsed phase decodes its item; failures carry issues |
| TrainingTimerSchema.ParseWorkoutType | modules/timer/domain/TrainingTimer.ts:11 | succeeds exactly on a string naming a workout type, and the type is named by that string; otherwise one issue at the field's path |
| TrainingTimerSchema.ParsePhase | modules/timer/domain/TrainingTimer.ts:5-8 | succeeds exactly on a phase object (nonnegative number `duration`) and keeps its duration and exercise; otherwise one issue under the phase's path |
| TrainingTimerSchema.ParsePhases | modules/timer/domain/TrainingTimer.ts:12 | succeeds exactly on an array of phase objects, with one phase per item; a failure has issues |
| TrainingTimerSchema.Validate | modules/timer/domain/TrainingTimer.ts:10-13 | succeeds exactly on a workout description; a failure carries at least one issue |
| TrainingTimerSchema.ValidateCorrect | modules/timer/domain/TrainingTimer.ts:10-13 | validation succeeds exactly on a workout description; the result has the named workout type and one decoded phase per item |
| TrainingTimerSchema.NonObjectRejected | modules/timer/domain/Timer.test.ts:769-775 | a non-object input (null, undefined) fails with the single "expected object" issue at the root |
| TrainingTimerSchema.MissingPhasesRejected | modules/timer/domain/Timer.test.ts:752-758 | missing `phases` fails with an "expected array" issue at `phases` |
| TrainingTimerSchema.UnknownWorkoutTypeRejected | modules/timer/domain/Timer.test.ts:760-767 | an unknown workout type name fails, the first issue being the invalid enum value at `workoutType` |
| TrainingTimerSchema.FirstNegativeDurationItems | modules/timer/domain/TrainingTimer.ts:6 | in the phase array, the first negative duration is the first issue reported, at `phases[i].duration` |
| TrainingTimerSchema.FirstNegativeDurationReported | modules/timer/domain/Timer.test.ts:737-750 | the whole input fails with its first issue at `phases[i].duration` for the first negative duration `i` |
| TimerTime.PaddedValue | modules/timer/domain/TimerTime.ts:7 | padded decimal text of `n` is all digits, at least two long, exactly two below 100, and reads back as `n` |
| TimerTime.FormatTime | modules/timer/domain/TimerTime.ts:4-8 | the text has at least five characters, with the colon third from the end |
| TimerTime.FormatTimeLayout | modules/timer/domain/TimerTime.ts:4-8 | the result is `MM:SS` text whose minutes read `t / 60`, seconds read `t % 60` (below 60), so the clock reads back as `t` |
| TimerTime.FormatTimeInjective | modules/timer/domain/TimerTime.ts:4-8 | different second counts give different texts |
| TimerTime.FormatTimeLength | modules/timer/domain/TimerTime.ts:7 | the text is exactly five characters long iff the time is below 6000 seconds |
| TimerTime.FormatTime754 | modules/timer/domain/TimerTime.test.ts:26-31 | 754 seconds format as `12:34` |
| TimerTime.FormatTime3600 | modules/timer/domain/TimerTime.test.ts:33-38 | 3600 seconds format as `60:00` |
| TimerTime.FormatTime3661 | modules/timer/domain/TimerTime.test.ts:33-38 | 3661 seconds format as `61:01` |
| TimerTime.FormatTime6000 | modules/timer/domain/TimerTime.test.ts:33-38 | 6000 seconds format as `100:00` (minutes are not truncated) |
| TimerTime.FormatTimeZero | modules/timer/domain/TimerTime.test.ts:5-7 | zero formats as `00:00` |
| TimerTime.TwoDigitExample | modules/timer/domain/TimerTime.ts:5-7 | for `t = 60m + s` with `s < 60` the text is the padded `m`, a colon and the padded `s` |
| TimerTime.DivMod60 | modules/timer/domain/TimerTime.ts:5-6 | minutes and seconds are the quotient and remainder by 60 |
| TimerTime.TwoDigits | modules/timer/domain/TimerTime.ts:7 | a number below 100 pads to its tens digit and units digit |
| JsText.NatToString | modules/timer/domain/TimerTime.ts:7 | `toString` of a natural is nonempty decimal digits, one digit iff below 10, no leading zero |
| JsText.DecimalValueOfNatToString | modules/timer/domain/TimerTime.ts:7 | `toString` reads back as the number |
| JsText.NatToStringLength | modules/timer/domain/TimerTime.ts:7 | below 100 the text is at most two digits; from 10 on, at least two |
| JsText.PadStart2Pads | modules/timer/domain/TimerTime.ts:7 | `padStart(2, '0')` keeps the text as a suffix, adds only zeros, and makes it at least two long |
| JsText.DecimalValueLeadingZeros | modules/timer/domain/TimerTime.ts:7 | leading zeros do not change the decimal value |
| JsText.TrimLeadingWhitespaceSuffix | packages/design-system/ui/liquid-metal.tsx:173 | `parseInt`'s whitespace skipping removes exactly the leading white space, keeping the rest as a suffix |
| TimerUtils.FormatTimeMsLayout | modules/timer/domain/timerUtils.ts:6-11 | the milliseconds format as a clock that reads back as the whole seconds, floored and clamped at 0; under a second it is `00:00` |
| TimerUtils.FormatTime | modules/timer/domain/timerUtils.ts:6-11 | the text has at least five characters with the colon third from the end, and is `00:00` below one second (negative times included) |
| TimerUtils.CalculateProgress | modules/timer/domain/timerUtils.ts:19-23 | progress is in [0, 1], is 0 when the total is not positive, and for remaining time within the total equals the elapsed fraction |
| TimerUtils.CalculateProgressEndpoints | modules/timer/domain/timerUtils.ts:19-23 | progress is 0 with all time remaining, 1 with none, and does not decrease as time remaining falls |
| TimerUtils.BgToTextColor | modules/timer/domain/timerUtils.ts:30-32 | a `bg-` class becomes the `text-` class with the same suffix; any other string is returned unchanged |
| TimerUtils.BgToTextColorIdempotent | modules/timer/domain/timerUtils.ts:31 | applying it twice equals applying it once; length grows by 2 exactly for `bg-` classes |
| TimelineCompiler.FormatSecondsDisplayReadsBack | modules/timer/domain/timelineCompiler.ts:15-19 | the display text is a clock that reads back as the seconds, five characters under 6000 |
| TimelineCompiler.FormatSecondsDisplay | modules/timer/domain/timelineCompiler.ts:15-19 | the display has at least five characters with the colon third from the end, exactly five iff below 6000 seconds |
| TimelineCompiler.PreCountdownFrame | modules/timer/domain/timelineCompiler.ts:28-32 | a countdown frame displays its number, has no segment fields, and has the given colour |
| TimelineCompiler.PreCountdownFrames | modules/timer/domain/timelineCompiler.ts:24-36 | one frame per countdown second, none for a nonpositive count |
| TimelineCompiler.PreCountdownFramesShape | modules/timer/domain/timelineCompiler.ts:27-33 | frame `k` is a PRE_COUNTDOWN frame displaying `seconds - k`, with no segment fields |
| TimelineCompiler.GeneratePreCountdownFrames | modules/timer/domain/timelineCompiler.ts:24-36 | the loop builds exactly the countdown frames |
| TimelineCompiler.GoFrame | modules/timer/domain/timelineCompiler.ts:41-47 | the GO frame shows `GO!` in the given colour with no segment fields |
| TimelineCompiler.GenerateGoFrame | modules/timer/domain/timelineCompiler.ts:41-47 | returns the GO frame |
| TimelineCompiler.SegmentSecondsBounds | modules/timer/domain/timelineCompiler.ts:59 | a segment lasts the whole seconds of its duration: `s*1000 <= ms < (s+1)*1000` |
| TimelineCompiler.SegmentColor | modules/timer/domain/timelineCompiler.ts:60 | the segment's own colour wins over the default |
| TimelineCompiler.SegmentFrames | modules/timer/domain/timelineCompiler.ts:53-78 | one frame per whole second of the segment |
| TimelineCompiler.SegmentFrame | modules/timer/domain/timelineCompiler.ts:64-74 | a segment frame carrying the segment's index, type, second, whole-second length and colour (its own, else the default) |
| TimelineCompiler.SegmentFramesShape | modules/timer/domain/timelineCompiler.ts:63-75 | frame `s` is a segment frame with second `s`, total seconds, index, type, label and colour of its segment |
| TimelineCompiler.SegmentFrameDisplay | modules/timer/domain/timelineCompiler.ts:64-67 | second `s` displays a clock reading the seconds remaining in the segment |
| TimelineCompiler.GenerateSegmentFrames | modules/timer/domain/timelineCompiler.ts:53-78 | the loop builds exactly the segment's frames |
| TimelineCompiler.AllSegmentFrames | modules/timer/domain/timelineCompiler.ts:103-105 | the segments' frames number the sum of their whole seconds |
| TimelineCompiler.Head | modules/timer/domain/timelineCompiler.ts:94-100 | the countdown plus GO come to the countdown length plus one |
| TimelineCompiler.CompileTimeline | modules/timer/domain/timelineCompiler.ts:84-108 | the loop-built timeline equals the timeline function |
| TimelineCompiler.Timeline | modules/timer/domain/timelineCompiler.ts:84-108 | countdown length plus one (GO) plus the segments' whole seconds frames |
| TimelineCompiler.TimelineLength | modules/timer/domain/timelineCompiler.ts:84-108 | timeline length = countdown + 1 + total segment seconds |
| TimelineCompiler.PreCountdownLayout | modules/timer/domain/timelineCompiler.ts:94-100 | the timeline opens with countdown frames from the configured seconds down, then the GO frame, in the default colour |
| TimelineCompiler.AllSegmentFramesAt | modules/timer/domain/timelineCompiler.ts:103-105 | second `s` of segment `j` lies at the seconds of the earlier segments plus `s` |
| TimelineCompiler.AllSegmentFramesSnoc | modules/timer/domain/timelineCompiler.ts:103-105 | taking one more segment appends exactly its frames |
| TimelineCompiler.AllSegmentFramesRunning | modules/timer/domain/timelineCompiler.ts:63-75 | every frame after GO is a segment frame |
| TimelineCompiler.SegmentSecond | modules/timer/domain/timelineCompiler.ts:84-108 | in the full timeline, second `s` of segment `j` sits after the countdown, GO and earlier segments |
| TimelineCompiler.TimelineDurationMs | modules/timer/domain/timelineCompiler.ts:113-115 | the duration is a whole number of seconds, one per frame |
| TimelineCompiler.FrameAtTime | modules/timer/domain/timelineCompiler.ts:120-135 | negative time gives frame 0; in range, the frame whose second contains the time; past the end, the last frame; an empty timeline gives no frame |
| TimelineCompiler.TimelineProgress | modules/timer/domain/timelineCompiler.ts:140-146 | progress is `index / (length - 1)`, in [0, 1] for valid indices, 0 at the first frame and 1 at the last; 1 for timelines of at most one frame |
| TimelineCompiler.SegmentProgress | modules/timer/domain/timelineCompiler.ts:152-174 | 0 for no frame or a countdown frame, 1 for GO, `(second + 1) / total` in (0, 1] for a segment frame and 1 exactly on its last second |
| TimelineCompiler.TimelineSegmentProgress | modules/timer/domain/timelineCompiler.ts:152-174 | on a compiled timeline: 0 during the countdown, 1 on GO, in (0, 1] during segments |
| FrameTick.InitialState | modules/timer/hooks/useFrameTick.ts:23-24 | the ticker starts inactive, never ticked, at `startAtIndex` or 0 |
| FrameTick.FrameCallback | modules/timer/hooks/useFrameTick.ts:26-48 | at or past `maxTicks` it completes and deactivates; on the first frame or after 1000 ms it ticks the current index and advances; otherwise nothing |
| FrameTick.Frame | modules/timer/hooks/useFrameTick.ts:48 | an inactive callback does nothing; an active one runs the callback |
| FrameTick.ResetState | modules/timer/hooks/useFrameTick.ts:54-57 | reset sets the index to 0 and forgets the last tick time, leaving activity alone |
| FrameTick.FrameTicker.constructor | modules/timer/hooks/useFrameTick.ts:5-24 | the hook starts in the initial state with no callbacks made, remembering whether the optional `onComplete` was passed |
| FrameTick.FrameTicker.OnFrame | modules/timer/hooks/useFrameTick.ts:26-48 | a frame updates the state as the frame function says and records its calls: every tick, and the completion only when `onComplete` was passed |
| FrameTick.FrameTicker.Start | modules/timer/hooks/useFrameTick.ts:51 | `start` activates the callback and changes nothing else |
| FrameTick.FrameTicker.Stop | modules/timer/hooks/useFrameTick.ts:52 | `stop` deactivates the callback and changes nothing else |
| FrameTick.FrameTicker.Toggle | modules/timer/hooks/useFrameTick.ts:53 | `toggle` flips activity and changes nothing else |
| FrameTick.FrameTicker.Reset | modules/timer/hooks/useFrameTick.ts:54-57 | `reset` performs the reset state change |
| FrameTick.FrameTicker.Perform | modules/timer/hooks/useFrameTick.ts:50-58 | one operation moves the object as the pure step does and records the calls of the events it signals |
| FrameTick.FrameTicker.PerformAll | modules/timer/hooks/useFrameTick.ts:50-58 | a sequence of operations moves the object as the pure run does and records the calls of the whole run's events |
| FrameTick.Calls | modules/timer/hooks/useFrameTick.ts:30 | with `onComplete` every signalled event is a call; without it no completion is called |
| FrameTick.WithoutComplete | modules/timer/hooks/useFrameTick.ts:30 | dropping the completions leaves no completion and removes exactly as many events as there were completions |
| FrameTick.WithoutCompleteKeepsTicks | modules/timer/hooks/useFrameTick.ts:30 | without `onComplete` the ticked indices are still all called, in order |
| FrameTick.CallsAppend | modules/timer/hooks/useFrameTick.ts:26-48 | the calls of two runs one after the other are the calls of each, appended |
| FrameTick.TicksAreConsecutive | modules/timer/hooks/useFrameTick.ts:35-47 | without resets, the ticked indices are exactly the consecutive run from the start index to the final index |
| FrameTick.StepTicks | modules/timer/hooks/useFrameTick.ts:26-53 | one non-reset operation never moves the index back and ticks exactly the indices it passes |
| FrameTick.TicksBelowMax | modules/timer/hooks/useFrameTick.ts:27-32 | no tick ever carries an index at or above `maxTicks` |
| FrameTick.InactiveFramesInert | modules/timer/hooks/useFrameTick.ts:48 | frames while stopped change nothing and call nothing |
| FrameTick.CompletesOnce | modules/timer/hooks/useFrameTick.ts:27-32 | over any run of frames `onComplete` is called at most once, as the last event, leaving the ticker inactive |
| FrameTick.ResetTicksAtOnce | modules/timer/hooks/useFrameTick.ts:54-57 | after reset the next frame ticks index 0 at once |
| FrameTick.StopStartKeepsPosition | modules/timer/hooks/useFrameTick.ts:51-52 | stop, any frames, start, resumes with index and last tick time unchanged and nothing called |
| FrameTick.TicksEverySecond | modules/timer/hooks/useFrameTick.test.ts:279-301 | frames at 0, 1000 and 2000 ms tick 0, 1, 2 |
| FrameTick.SingleTickCompletes | modules/timer/hooks/useFrameTick.test.ts:426-445 | with `maxTicks` 1, one tick then completion and the ticker stops |
| FrameTick.StartPastMaxCompletes | modules/timer/hooks/useFrameTick.test.ts:634-652 | starting past `maxTicks` completes at once without ticking |
| FrameTick.StartAtIndexRespected | modules/timer/hooks/useFrameTick.test.ts:447-468 | starting at 3 of 5 ticks 3 and 4, then completes |
| FrameTick.ResumesWhereStopped | modules/timer/hooks/useFrameTick.test.ts:536-562 | after a stop and start the ticks continue from the stopped index |
| FrameTick.ResetAllowsImmediateTick | modules/timer/hooks/useFrameTick.test.ts:250-275 | reset allows an immediate second tick of index 0 |
| FrameTick.CompletesSilentlyWithoutCallback | modules/timer/hooks/useFrameTick.test.ts:495-511 | without `onComplete`, `maxTicks` 1 ticks 0, then the next frame stops the ticker and calls nothing |
| TimerHook.InitialState | modules/timer/hooks/useTimer.ts:32-35 | idle, at frame 0, no start time, nothing banked |
| TimerHook.PlayStep | modules/timer/hooks/useTimer.ts:69-77 | play runs from now; from completed it rewinds to frame 0 and clears banked time, otherwise keeps both |
| TimerHook.PauseStep | modules/timer/hooks/useTimer.ts:79-87 | pausing a running timer banks the time since start and clears the start; otherwise nothing changes |
| TimerHook.ToggleStep | modules/timer/hooks/useTimer.ts:96-102 | toggle pauses a running timer and plays any other |
| TimerHook.FrameStep | modules/timer/hooks/useTimer.ts:45-66 | only a running timer reacts; it moves to the frame at the elapsed time, reports that frame when the index is inside the timeline, and completes exactly on reaching the last frame; at most two events |
| TimerHook.FrameStepMoves | modules/timer/hooks/useTimer.ts:48-64 | on a non-empty timeline a frame that changes the index lands inside the timeline, reports that frame, and completes from the last index on |
| TimerHook.Reported | modules/timer/hooks/useTimer.ts:56-63 | the calls made are the reported events whose callback was passed; with both callbacks, all of them |
| TimerHook.ReportedShape | modules/timer/hooks/useTimer.ts:55-64 | a frame change calls `onFrameChange` if passed, then `onComplete` if passed and the index is the last |
| TimerHook.CurrentFrame | modules/timer/hooks/useTimer.ts:38 | the current frame exists exactly for an index inside the timeline |
| TimerHook.ApplyKeepsInv | modules/timer/hooks/useTimer.ts:45-102 | every operation keeps the index inside the timeline and the start time present exactly while running |
| TimerHook.PlayPauseBanksRunningTime | modules/timer/hooks/useTimer.ts:69-87 | play then pause banks exactly the time between them and keeps the frame |
| TimerHook.PauseFreezesElapsed | modules/timer/hooks/useTimer.ts:79-87 | while paused the elapsed time stands still; after resuming it continues from where it stopped |
| TimerHook.PlayWhileRunningRewinds | modules/timer/hooks/useTimer.ts:69-77 | play on a running timer restarts the clock and drops the unbanked run time |
| TimerHook.CompletionReportsLastFrame | modules/timer/hooks/useTimer.ts:52-64 | completion lands on the last frame and reports that frame, then completion |
| TimerHook.CompletedIsInert | modules/timer/hooks/useTimer.ts:46 | frames after completion change nothing |
| TimerHook.PauseIdempotent | modules/timer/hooks/useTimer.ts:79-87 | pausing twice is pausing once |
| TimerHook.ResetIsInitial | modules/timer/hooks/useTimer.ts:89-94 | reset returns to the initial state, which meets the invariant |
| TimerHook.FrameAtTimeMonotone | modules/timer/domain/timelineCompiler.ts:120-135 | a later time never gives an earlier frame |
| TimerHook.RunningIndexAdvances | modules/timer/hooks/useTimer.ts:45-66 | while running, the frame index never moves backwards |
| TimerHook.PlayPauseTimer.constructor | modules/timer/hooks/useTimer.ts:20-35 | the hook compiles the timeline and starts in the initial state, remembering which optional callbacks were passed |
| TimerHook.PlayPauseTimer.Play | modules/timer/hooks/useTimer.ts:69-77 | `play` performs the play step, keeping the invariant |
| TimerHook.PlayPauseTimer.Pause | modules/timer/hooks/useTimer.ts:79-87 | `pause` performs the pause step, keeping the invariant |
| TimerHook.PlayPauseTimer.Reset | modules/timer/hooks/useTimer.ts:89-94 | `reset` returns to the initial state |
| TimerHook.PlayPauseTimer.Toggle | modules/timer/hooks/useTimer.ts:96-102 | `toggle` performs the toggle step |
| TimerHook.PlayPauseTimer.OnFrame | modules/timer/hooks/useTimer.ts:45-66 | a frame performs the frame step and records the calls of the callbacks that were passed |
| TimerHook.PlayPauseTimer.Frame | modules/timer/hooks/useTimer.ts:38 | the current frame is always present, being the frame at the index |
| TimerHook.PlayPauseTimer.Progress | modules/timer/hooks/useTimer.ts:42 | segment progress is in [0, 1], 0 exactly during the countdown, 1 exactly on GO or a segment's last second |
| TimerHook.PlayPauseTimer.OverallProgress | modules/timer/hooks/useTimer.ts:41 | overall progress is in [0, 1], 1 exactly on the last frame |
| TimerHook.ResumeScenario | modules/timer/hooks/useTimer.ts:45-87 | played 1.6 s, paused (a frame while paused changes nothing) and resumed for 0.5 s, the timer shows frame 1 while paused and frame 2 after resuming |
| TimerNewHook.StaticFramesMatchDefaults | modules/timer/hooks/useTimerNew.ts:15-37 | the placeholder, countdown and GO constants are the pre-workout frames of the default config |
| TimerNewHook.PhaseFrames | modules/timer/hooks/useTimerNew.ts:49-60 | one frame per second of the phase |
| TimerNewHook.PhaseFrame | modules/timer/hooks/useTimerNew.ts:49-59 | a RUNNING frame of the workout type showing `d - i`, with the total minus the frames counted so far (this one included) as remaining time |
| TimerNewHook.TrainingFrames | modules/timer/hooks/useTimerNew.ts:44-64 | every training frame is a RUNNING frame of the workout type |
| TimerNewHook.TrainingFramesLength | modules/timer/hooks/useTimerNew.ts:44-64 | the training frames number the total duration |
| TimerNewHook.CompileTrainingTimer | modules/timer/hooks/useTimerNew.ts:39-65 | the counter-based loop builds exactly the training frames |
| TimerNewHook.PhaseFrameFacts | modules/timer/hooks/useTimerNew.ts:51-56 | second `i` shows time `d - i`; progress `i/d` starts at 0 and stays below 1 (unlike `createTimer`) |
| TimerNewHook.TrainingFramesAt | modules/timer/hooks/useTimerNew.ts:44-64 | second `i` of phase `p` lies after the earlier phases' seconds |
| TimerNewHook.TrainingFramesRunDown | modules/timer/hooks/useTimerNew.ts:40-57 | running frames of the type, time at least 1, remaining time from total−1 down to 0, progress in [0, 1) |
| TimerNewHook.ZeroPhaseAddsNothing | modules/timer/hooks/useTimerNew.ts:40-49 | a zero-length phase adds no time and no frames |
| TimerNewHook.TimelineLayout | modules/timer/hooks/useTimerNew.ts:69-77 | placeholder, countdown 10 to 1, GO, then running frames ending at remaining time 0 |
| TimerNewHook.Timeline | modules/timer/hooks/useTimerNew.ts:69-77 | twelve pre-workout frames (placeholder, ten countdown, GO) plus one per second of training |
| TimerNewHook.Toggled | modules/timer/hooks/useTimerNew.ts:90 | running becomes paused, anything else becomes running |
| TimerNewHook.TimerNew.constructor | modules/timer/hooks/useTimerNew.ts:68-86 | not started, showing the placeholder, with a ticker at index 1 bounded by the timeline length and created without `onComplete` |
| TimerNewHook.TimerNew.ToggleTimer | modules/timer/hooks/useTimerNew.ts:88-91 | toggles both the ticker and the displayed state, keeping the frame |
| TimerNewHook.TimerNew.OnFrame | modules/timer/hooks/useTimerNew.ts:80-86 | a tick shows the timeline frame of the ticked index; otherwise the frame stays |
| TimerNewHook.ToggleKeepsAgreement | modules/timer/hooks/useTimerNew.ts:88-91 | while the ticker's activity matches RUNNING, toggling keeps them matched |
| TimerNewHook.CompletionDesynchronises | modules/timer/hooks/useTimerNew.ts:88-91 | after completion stops the ticker, the state still says RUNNING, so the next toggle restarts the ticker while showing PAUSED |
| PoissonSolver.CreatePlaceholderImageData | packages/design-system/ui/liquidMetal/poissonSolver.ts:246-250 | the 1×1 placeholder image |
| PoissonSolver.ShapeMask | packages/design-system/ui/liquidMetal/poissonSolver.ts:35-42 | one entry per 4-byte pixel, set exactly when the alpha byte is positive |
| PoissonSolver.ShapeCountZero | packages/design-system/ui/liquidMetal/poissonSolver.ts:37-47 | the shape is empty exactly when no pixel is in the mask |
| PoissonSolver.BuildShapeMask | packages/design-system/ui/liquidMetal/poissonSolver.ts:32-42 | the mask marks the pixels whose alpha exceeds the threshold, and the count is their number |
| PoissonSolver.IndicesOfKindMembers | packages/design-system/ui/liquidMetal/poissonSolver.ts:53-82 | the boundary (interior) list holds exactly the boundary (interior) pixels, in increasing order |
| PoissonSolver.ShapeSplit | packages/design-system/ui/liquidMetal/poissonSolver.ts:53-82 | every shape pixel is boundary or interior, never both; boundary means on the edge or next to background |
| PoissonSolver.IsBoundaryPixel | packages/design-system/ui/liquidMetal/poissonSolver.ts:58-73 | a pixel is boundary iff on the image edge or next to a background pixel |
| PoissonSolver.ClassifyPixels | packages/design-system/ui/liquidMetal/poissonSolver.ts:49-82 | the scan yields the boundary mask and the boundary and interior lists |
| PoissonSolver.ClassifyRow | packages/design-system/ui/liquidMetal/poissonSolver.ts:54-81 | one row extends the lists and mask by that row's pixels |
| PoissonSolver.ClassifyPixel | packages/design-system/ui/liquidMetal/poissonSolver.ts:55-80 | one pixel extends the lists and mask by that pixel |
| PoissonSolver.NeighborEntries | packages/design-system/ui/liquidMetal/poissonSolver.ts:148-159 | the four neighbour entries: the in-shape neighbour's index, or −1 |
| PoissonSolver.BuildSparseData | packages/design-system/ui/liquidMetal/poissonSolver.ts:136-168 | the table holds four entries per interior pixel, east, west, north, south |
| PoissonSolver.NeighborEntry | packages/design-system/ui/liquidMetal/poissonSolver.ts:152-159 | a table entry is −1 or the index of an in-image shape pixel |
| PoissonSolver.InteriorNeighbours | packages/design-system/ui/liquidMetal/poissonSolver.ts:147-160 | an interior pixel's four neighbours are all in the shape, at ±1 and ±width |
| PoissonSolver.TableEntriesInRange | packages/design-system/ui/liquidMetal/poissonSolver.ts:147-160 | every table entry is −1 or a pixel index |
| PoissonSolver.ColourPositionsMembers | packages/design-system/ui/liquidMetal/poissonSolver.ts:187-197 | the red (black) list is exactly the interior positions of even (odd) `x + y`, in order |
| PoissonSolver.RedBlackPartition | packages/design-system/ui/liquidMetal/poissonSolver.ts:187-197 | every interior position is red or black, never both |
| PoissonSolver.SplitRedBlack | packages/design-system/ui/liquidMetal/poissonSolver.ts:184-197 | the loop builds exactly the red and black lists |
| PoissonSolver.RelaxPass | packages/design-system/ui/liquidMetal/poissonSolver.ts:202-218 | one SOR half-sweep changes `u` only at interior pixels |
| PoissonSolver.SolvePoissonSparse | packages/design-system/ui/liquidMetal/poissonSolver.ts:170-241 | the solution is zero on every non-interior pixel (boundary and background stay fixed) |
| PoissonSolver.MaxInterior | packages/design-system/ui/liquidMetal/poissonSolver.ts:98-102 | the maximum is nonnegative, bounds every interior value and is attained unless 0 |
| PoissonSolver.Gray | packages/design-system/ui/liquidMetal/poissonSolver.ts:123-124 | without a positive maximum the red byte is 255 |
| PoissonSolver.PixelByte | packages/design-system/ui/liquidMetal/poissonSolver.ts:115-129 | background pixels are [255, 0, 255, 255]; shape pixels keep their alpha in green and have blue and alpha 255 |
| PoissonSolver.GrayFacts | packages/design-system/ui/liquidMetal/poissonSolver.ts:123-124 | the red channel is 255 where `u` is 0, 0 where `u` is the maximum, and `round(255(1 − u/max))` in between |
| PoissonSolver.WriteOutput | packages/design-system/ui/liquidMetal/poissonSolver.ts:107-131 | every output byte is that pixel's channel as the output rule gives it |
| PoissonSolver.WriteRow | packages/design-system/ui/liquidMetal/poissonSolver.ts:110-130 | one row of output is written |
| PoissonSolver.WritePixel | packages/design-system/ui/liquidMetal/poissonSolver.ts:111-129 | one pixel of output is written |
| PoissonSolver.OutputLayout | packages/design-system/ui/liquidMetal/poissonSolver.ts:107-131 | background pixels come out [255, 0, 255, 255]; shape pixels carry their alpha in green with blue and alpha 255; boundary pixels have red 255 |
| PoissonSolver.ProcessImageForLiquidMetal | packages/design-system/ui/liquidMetal/poissonSolver.ts:26-134 | an image with no shape gives the placeholder; otherwise the output has the input's size with that layout |
| ContentBounds.FindContentBounds | packages/design-system/ui/liquid-metal.tsx:359-384 | with a visible pixel, the tight bounding box; without, none, except a 0×0 image which gives the zero box |
| ContentBounds.TightUnique | packages/design-system/ui/liquid-metal.tsx:359-384 | the tight box is unique |
| ContentBounds.ScanStart | packages/design-system/ui/liquid-metal.tsx:365-368 | the initial extremes agree with an empty scan |
| ContentBounds.ScanVisible | packages/design-system/ui/liquid-metal.tsx:371-378 | a visible pixel widens the box to include it |
| ContentBounds.ScanInvisible | packages/design-system/ui/liquid-metal.tsx:371-379 | an invisible pixel leaves the box as it was |
| ContentBounds.ScanNextRow | packages/design-system/ui/liquid-metal.tsx:369-380 | finishing a row keeps the scan's invariant for the next row |
| ContentBounds.ScanComplete | packages/design-system/ui/liquid-metal.tsx:383-384 | at the end a pixel was found iff one is visible, and the box is then tight |
| ContentBounds.CropPixels | packages/design-system/ui/liquid-metal.tsx:389-412 | the new buffer is the crop of the bounds, of the bounds' width and height |
| ContentBounds.CropRow | packages/design-system/ui/liquid-metal.tsx:398-409 | one row of the crop is copied |
| ContentBounds.CropTarget | packages/design-system/ui/liquid-metal.tsx:400-404 | each destination pixel is the source pixel offset by the bounds |
| ContentBounds.CopyPixel | packages/design-system/ui/liquid-metal.tsx:405-408 | the four bytes of a pixel are copied, with out-of-range reads giving 0 |
| ContentBounds.CropUnique | packages/design-system/ui/liquid-metal.tsx:389-412 | the crop is unique |
| ContentBounds.CropKeepsVisibility | packages/design-system/ui/liquid-metal.tsx:391-412 | a pixel inside the bounds is visible in the crop iff in the source |
| ContentBounds.CropToContent | packages/design-system/ui/liquid-metal.tsx:359-412 | cropping to the tight box keeps every visible pixel and adds none |
| ColorParsing.Div255 | packages/design-system/ui/liquid-metal.tsx:173 | dividing by 255 keeps NaN and otherwise scales into channel units |
| ColorParsing.ParseInt | packages/design-system/ui/liquid-metal.tsx:177 | a negative result needs a leading minus; an empty or all-white-space text is NaN |
| ColorParsing.DigitPrefixLengthSpec | packages/design-system/ui/liquid-metal.tsx:177 | `parseInt` reads the longest run of digits of its radix |
| ColorParsing.RadixValueDecimal | packages/design-system/ui/liquid-metal.tsx:194 | radix-10 value is the decimal value |
| ColorParsing.ParseIntHexPair | packages/design-system/ui/liquid-metal.tsx:177 | `parseInt` of two hex digits, radix 16, is `16a + b` |
| ColorParsing.ParseIntHexPairNaN | packages/design-system/ui/liquid-metal.tsx:177 | a pair starting with a non-hex, non-sign, non-space character is NaN |
| ColorParsing.ParseIntDecimal | packages/design-system/ui/liquid-metal.tsx:194-196 | `parseInt` of a digit string is its decimal value |
| ColorParsing.ParseFloatNaN | packages/design-system/ui/liquid-metal.tsx:197 | on digits and dots, `parseFloat` is NaN exactly without a leading digit or `.digit`, else nonnegative |
| ColorParsing.ParseFloat | packages/design-system/ui/liquid-metal.tsx:197 | on digits and dots the result is NaN or nonnegative |
| ColorParsing.ParseFloatDigits | packages/design-system/ui/liquid-metal.tsx:197 | `parseFloat` of digits is their value |
| ColorParsing.ParseFloatFraction | packages/design-system/ui/liquid-metal.tsx:197 | `parseFloat` of `w.f` is the whole plus the fraction |
| ColorParsing.Span | packages/design-system/ui/liquid-metal.tsx:191 | a greedy character-class match: the longest prefix of the class |
| ColorParsing.SpanOf | packages/design-system/ui/liquid-metal.tsx:191 | the greedy match consumes exactly a class run followed by a non-class character |
| ColorParsing.MatchTail | packages/design-system/ui/liquid-metal.tsx:191 | a matched `(,alpha)?)` tail captures well-formed text and rebuilds the input |
| ColorParsing.MatchTailComplete | packages/design-system/ui/liquid-metal.tsx:191 | every well-formed tail is matched with its capture |
| ColorParsing.MatchGroups | packages/design-system/ui/liquid-metal.tsx:191 | a matched `d,d,d` part captures three digit groups and rebuilds the input |
| ColorParsing.MatchGroupsComplete | packages/design-system/ui/liquid-metal.tsx:191 | every well-formed group text is matched with its captures |
| ColorParsing.MatchRgbPrefix | packages/design-system/ui/liquid-metal.tsx:191 | an anchored match captures well-formed groups and rebuilds the input |
| ColorParsing.MatchRgbComplete | packages/design-system/ui/liquid-metal.tsx:191 | every `rgb(...)`/`rgba(...)` text is matched with its captures |
| ColorParsing.MatchUnique | packages/design-system/ui/liquid-metal.tsx:191 | the captures of a matched text are unique |
| ColorParsing.SearchRgb | packages/design-system/ui/liquid-metal.tsx:191 | the unanchored search finds the leftmost match, or there is none |
| ColorParsing.HashBranch | packages/design-system/ui/liquid-metal.tsx:165-166 | a `#` colour is read by its digits, in both variants |
| ColorParsing.HexColor | packages/design-system/ui/liquid-metal.tsx:165-188 | alpha is 1 unless there are eight digits; a length other than 3, 6 or 8 is mid-grey |
| ColorParsing.ShortHexColor | packages/design-system/ui/liquid-metal.tsx:172-175 | `#rgb` doubles each digit (17×) over 255, opaque |
| ColorParsing.PairAtValue | packages/design-system/ui/liquid-metal.tsx:177 | a hex pair reads as its value over 255 |
| ColorParsing.LongHexColor | packages/design-system/ui/liquid-metal.tsx:176-179 | `#rrggbb` gives its three pairs over 255, opaque |
| ColorParsing.HexColorWithAlpha | packages/design-system/ui/liquid-metal.tsx:180-184 | `#rrggbbaa` gives its four pairs over 255 |
| ColorParsing.PairChannelInUnitRange | packages/design-system/ui/liquid-metal.tsx:177 | a hex pair channel lies in [0, 1] |
| ColorParsing.HexOfOtherLengthIsGrey | packages/design-system/ui/liquid-metal.tsx:185-187 | any other hex length gives opaque mid-grey, in both variants |
| ColorParsing.MalformedHexIsNaN | packages/design-system/ui/liquid-metal.tsx:176-179 | a six-character `#` colour starting with a non-hex character gives a NaN red channel |
| ColorParsing.RgbFunctionColor | packages/design-system/ui/liquid-metal.tsx:191-199 | `rgb(...)` gives its decimal groups over 255, alpha by `parseFloat` or 1 |
| ColorParsing.RgbChannelsValue | packages/design-system/ui/liquid-metal.tsx:193-198 | the channels of a match are the groups over 255 and the alpha |
| ColorParsing.RgbChannels | packages/design-system/ui/liquid-metal.tsx:193-198 | without a fourth group alpha is 1; a finite alpha is nonnegative |
| ColorParsing.DecimalChannel | packages/design-system/ui/liquid-metal.tsx:194 | a digit group gives its decimal value over 255 |
| ColorParsing.RgbAfterPrefix | packages/design-system/ui/liquid-metal.tsx:191 | text before an `rgb(` that contains no `rgb` is skipped by the search |
| ColorParsing.NoColourSyntaxIsGrey | packages/design-system/ui/liquid-metal.tsx:201 | without `#` and without `rgb` the colour is mid-grey |
| ColorParsing.ParseColor | packages/design-system/ui/liquid-metal.tsx:164-202 | only a `#` colour or an `rgb(...)` match gives anything but mid-grey; without `#` a finite alpha is nonnegative |
| ColorParsing.ParseHexOnlyColor | packages/design-system/ui/liquidMetal/LiquidMetalText.tsx:127-154 | anything without `#` is mid-grey; alpha is 1 unless eight digits follow the `#` |
| ColorParsing.HexOnlyAgrees | packages/design-system/ui/liquidMetal/LiquidMetalText.tsx:127-154 | the text component's parser agrees with the full one on `#` colours and is grey otherwise |
| ColorParsing.HexOnlyIgnoresRgb | packages/design-system/ui/liquidMetal/LiquidMetalText.tsx:153 | an `rgb(...)` colour is grey for the text component but its channels for the image component |
| LiquidMetal.CustomColourOverridesVariant | packages/design-system/ui/LiquidMetal.tsx:449-461 | a custom colour makes the variant irrelevant and is used for its red, green and blue |
| LiquidMetal.Presets | packages/design-system/ui/LiquidMetal.tsx:48-97 | every preset colour is seven characters starting with `#` |
| LiquidMetal.ColorLightParsed | packages/design-system/ui/LiquidMetal.tsx:449-454 | a custom light colour is parsed in place of the preset; without one the channels are finite and in [0, 1], never NaN |
| LiquidMetal.ColorDarkParsed | packages/design-system/ui/LiquidMetal.tsx:456-461 | a custom dark colour is parsed in place of the preset; without one the channels are finite and in [0, 1], never NaN |
| LiquidMetal.PresetsAreSixDigitHex | packages/design-system/ui/LiquidMetal.tsx:48-97 | every preset colour is `#rrggbb` |
| LiquidMetal.SixDigitHexRgb | packages/design-system/ui/LiquidMetal.tsx:148-151 | a `#rrggbb` colour gives its three pairs over 255 |
| LiquidMetal.ChannelsInRange | packages/design-system/ui/LiquidMetal.tsx:148-151 | a `#rrggbb` colour gives finite channels in [0, 1] |
| LiquidMetal.DefaultHighlight | packages/design-system/ui/LiquidMetal.tsx:48-51 | the default silver variant highlights with (250, 250, 255)/255 |
| LiquidMetal.FitModeCodes | packages/design-system/ui/LiquidMetal.tsx:463 | contain is 1, cover 2, none 0, the default fit is contain |
| LiquidMetal.FitMode | packages/design-system/ui/LiquidMetal.tsx:463 | the code is 0, 1 or 2; 1 exactly for contain and 2 exactly for cover |
| LiquidMetalText.CustomColourOverridesVariant | packages/design-system/ui/liquidMetal/LiquidMetalText.tsx:302-304 | a custom colour is used exactly when given; otherwise the variant's |
| LiquidMetalText.Presets | packages/design-system/ui/liquidMetal/LiquidMetalText.tsx:74-80 | every preset colour is seven characters starting with `#` |
| LiquidMetalText.LightColor | packages/design-system/ui/liquidMetal/LiquidMetalText.tsx:302-303 | the custom light colour when given, else a seven-character `#` preset |
| LiquidMetalText.DarkColor | packages/design-system/ui/liquidMetal/LiquidMetalText.tsx:302-304 | the custom dark colour when given, else a seven-character `#` preset |
| LiquidMetalText.ParsedRgb | packages/design-system/ui/liquidMetal/LiquidMetalText.tsx:308-315 | a colour without `#` gives mid-grey channels |
| LiquidMetalText.CustomRgbColourIsGrey | packages/design-system/ui/liquidMetal/LiquidMetalText.tsx:127-154 | a custom `rgb(...)` colour is drawn as grey |
| LiquidMetalText.LightPresetIsSixDigitHex | packages/design-system/ui/liquidMetal/LiquidMetalText.tsx:74-80 | every highlight preset is `#rrggbb` |
| LiquidMetalText.DarkPresetIsSixDigitHex | packages/design-system/ui/liquidMetal/LiquidMetalText.tsx:74-80 | every shadow preset is `#rrggbb` |
| LiquidMetalText.SixDigitHexRgb | packages/design-system/ui/liquidMetal/LiquidMetalText.tsx:139-142 | a `#rrggbb` colour gives its three pairs over 255 |
| LiquidMetalText.GreyShadows | packages/design-system/ui/liquidMetal/LiquidMetalText.tsx:74-80 | the silver, silver-light and chrome shadows are greys |
| LiquidMetalText.FontWeightValues | packages/design-system/ui/liquidMetal/LiquidMetalText.tsx:156-171 | normal is 400, bold 700, `N00` is its number, anything else 400 |
| LiquidMetalText.TableKeys | packages/design-system/ui/liquidMetal/LiquidMetalText.tsx:157-169 | the table's keys are normal, bold and `100`…`900` |
| LiquidMetalText.NumericWeightValue | packages/design-system/ui/liquidMetal/LiquidMetalText.tsx:160-168 | the entry of `N00` is 100·N, its decimal value |
| LiquidMetalText.GetFontWeightValue | packages/design-system/ui/liquidMetal/LiquidMetalText.tsx:156-171 | every weight is a multiple of 100 from 100 to 900 |
| LiquidMetalText.AnimationModeCodesAreConsecutive | packages/design-system/ui/liquidMetal/LiquidMetalText.tsx:47-54 | the modes are numbered 0–5, one-to-one, flow being 0 |
| LiquidMetalText.PatternCodesAreConsecutive | packages/design-system/ui/liquidMetal/LiquidMetalText.tsx:56-62 | the patterns are numbered 0–4, one-to-one, linear being 0 |
| LiquidMetalText.MaterialCodesAreConsecutive | packages/design-system/ui/liquidMetal/LiquidMetalText.tsx:64-72 | the materials are numbered 0–6, one-to-one, default being 0 |
| LiquidMetalText.AnimationModeCode | packages/design-system/ui/liquidMetal/LiquidMetalText.tsx:47-54 | every mode code lies in 0–5 |
| LiquidMetalText.PatternCode | packages/design-system/ui/liquidMetal/LiquidMetalText.tsx:56-62 | every pattern code lies in 0–4 |
| LiquidMetalText.MaterialCode | packages/design-system/ui/liquidMetal/LiquidMetalText.tsx:64-72 | every material code lies in 0–6 |

## Left out

- JavaScript number rounding. The model uses exact reals for progress values, the SOR solution and the display, and exact integers for counters. Float32 rounding in the solver, float64 rounding and -0 are not modelled.
- `parseFloat` is modelled only on the digit-and-dot strings that the rgba alpha group can capture.
- `parseInt` precision loss above 2^53 is not modelled.
- Strings are sequences of code points, not UTF-16 units.
- Rendering is not modelled: the shaders, Skia canvas calls, React rendering and effects, image rasterising and fetching, and the UI thread hop (`runOnJS`).
- The hooks' React state is the fields of a class, updated synchronously.
- Clocks are parameters: timestamps and `performance.now()`.
- The `timerConfigSchema` of modules/timer/domain/Timer.ts:10-14 is declared but never applied (options are merged over the defaults unchecked), so it is not modelled.
- TrainingTimerSchema.ValidateCorrect: durations are integers (`nat`), because fractional seconds would need fractional frame lists. The schema itself accepts any nonnegative number.
- The WorkoutType and TimerPhase enum files are not part of this model. The enum values are taken from the tests, and each enum's string value is its name.
- `createTimerFrame` is taken to be the identity: modules/timer/domain/TimerFrame.ts declares only the frame type (without `progress`) and does not define the `createTimerFrame` and `timerFrameSchema` that Timer.ts:5 imports.
- PoissonSolver.SolvePoissonSparse: the values after the 40 SOR iterations are not characterised beyond "only interior pixels change". Convergence is not stated.
- PoissonSolver.ProcessImageForLiquidMetal: requires the canvas invariant `|data| == width * height * 4`.
- ContentBounds.CropPixels: requires a nonempty box inside the first quadrant (`0 <= minX <= maxX`, `0 <= minY <= maxY`). The only call site (packages/design-system/ui/liquid-metal.tsx:511-518) passes a `findContentBounds` result, which always is one (ContentBounds.FindContentBounds).
- The default `alphaThreshold = 20` of `findContentBounds` (packages/design-system/ui/liquid-metal.tsx:363) is not modelled: the threshold is a parameter, and the only call passes 50.
- ContentBounds.CropKeepsVisibility: requires a nonnegative threshold. Otherwise out-of-range reads, which give 0, would count as visible.
- LiquidMetalText.FontWeightValues: prototype keys of the JavaScript weight object, such as `constructor`, are not modelled.
- The row and pixel helper methods (`ClassifyRow`, `WriteRow`, `CropRow` and their pixel versions) are the nested loops of the source, split up. They are not separate source functions.
- The legacy `TrainningTimer` type of useTimerNew.ts is not modelled; the model uses TrainingTimer.ts.
