/**
 * The enumerations and the frame record shared by the timer compilers.
 * The enum files are not part of this model; their members are those the tests and callers use.
 */
module TimerTypes {
  import opened Wrappers

  /** The training methodology carried on every RUNNING frame. */
  datatype WorkoutType = TABATA | EMOM | AMRAP | FORTIME | REST

  /** The display mode of one second. */
  datatype TimerPhase = PLACEHOLDER | PRE_COUNTDOWN | GO | RUNNING

  /** The play state of the frame-list runner in the newer hook. */
  datatype TimerState = NOT_STARTED | RUNNING_STATE | PAUSED | COMPLETED

  /**
   * One second of display state, as the tests compare it field by field:
   * `time` is the value shown (countdown value or seconds left in the phase),
   * `remainingTotalTime` the seconds left across the workout, `progress` the phase fraction.
   */
  datatype TimerFrame = TimerFrame(
    phase: TimerPhase,
    workoutType: WorkoutType,
    time: int,
    remainingTotalTime: int,
    progress: real)

  /** The string value of each enum member (a string enum whose values are the member names). */
  function WorkoutTypeName(t: WorkoutType): string {
    match t
    case TABATA => "TABATA"
    case EMOM => "EMOM"
    case AMRAP => "AMRAP"
    case FORTIME => "FORTIME"
    case REST => "REST"
  }

  /** The enum member whose value is `s`, if any. */
  function WorkoutTypeFromName(s: string): (r: Option<WorkoutType>)
    ensures r.Some? ==> WorkoutTypeName(r.value) == s
    ensures r.None? ==> forall t: WorkoutType :: WorkoutTypeName(t) != s
  {
    if s == "TABATA" then Some(TABATA)
    else if s == "EMOM" then Some(EMOM)
    else if s == "AMRAP" then Some(AMRAP)
    else if s == "FORTIME" then Some(FORTIME)
    else if s == "REST" then Some(REST)
    else None
  }
}
