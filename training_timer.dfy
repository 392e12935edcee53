/**
 * The runtime schema of a workout description, `trainingTimerSchema`, as a total validation
 * function over untyped input. Like the schema library it imitates, it checks every field and
 * reports every issue, in schema order: `workoutType` first, then `phases` element by element,
 * and inside a phase `duration` before `exercise`.
 */
module TrainingTimerSchema {
  import opened Wrappers
  import opened TimerTypes

  /** An untyped JavaScript value as it may arrive from persisted data or a literal. */
  datatype Raw =
    | RUndefined
    | RNull
    | RBool(b: bool)
    | RNumber(n: int)
    | RString(s: string)
    | RArray(items: seq<Raw>)
    | RObject(fields: map<string, Raw>)

  /** Reading a property: an absent key reads as `undefined`. */
  function Field(fields: map<string, Raw>, key: string): Raw {
    if key in fields then fields[key] else RUndefined
  }

  datatype PathItem = Key(name: string) | Index(i: nat)

  /** The violated rule of one issue. */
  datatype Rule =
    | ExpectedObject       // invalid_type: an object was expected
    | ExpectedArray        // invalid_type: an array was expected
    | ExpectedNumber       // invalid_type: a number was expected
    | ExpectedEnumType     // invalid_type: neither a string nor a number where an enum value was expected
    | InvalidEnumValue     // invalid_enum_value: a string or number that is not a WorkoutType value
    | TooSmall             // too_small: a number below the minimum 0

  datatype Issue = Issue(path: seq<PathItem>, rule: Rule)

  datatype TrainingTimerPhase = TrainingTimerPhase(duration: nat, exercise: Raw)

  datatype TrainingTimer = TrainingTimer(workoutType: WorkoutType, phases: seq<TrainingTimerPhase>)

  function IssuesOf<T>(r: Result<T, seq<Issue>>): seq<Issue> {
    if r.Failure? then r.error else []
  }

  /** `z.nativeEnum(WorkoutType)` at `path`. */
  function ParseWorkoutType(raw: Raw, path: seq<PathItem>): (r: Result<WorkoutType, seq<Issue>>)
    ensures r.Success? <==> raw.RString? && WorkoutTypeFromName(raw.s).Some?
    ensures r.Success? ==> WorkoutTypeName(r.value) == raw.s
    ensures r.Failure? ==> |r.error| == 1 && r.error[0].path == path
  {
    match raw
    case RString(s) =>
      var t := WorkoutTypeFromName(s);
      if t.Some? then Success(t.value) else Failure([Issue(path, InvalidEnumValue)])
    case RNumber(_) => Failure([Issue(path, InvalidEnumValue)])
    case _ => Failure([Issue(path, ExpectedEnumType)])
  }

  /** `trainingTimerPhaseSchema` at `path`: `duration: z.number().nonnegative()`, `exercise: z.unknown().optional()`. */
  function ParsePhase(raw: Raw, path: seq<PathItem>): (r: Result<TrainingTimerPhase, seq<Issue>>)
    ensures r.Success? <==> IsPhaseObject(raw)
    ensures r.Success? ==> DecodesTo(raw, r.value)
    ensures r.Failure? ==> |r.error| == 1 && |r.error[0].path| >= |path| && r.error[0].path[..|path|] == path
  {
    match raw
    case RObject(f) =>
      var d := Field(f, "duration");
      if !d.RNumber? then Failure([Issue(path + [Key("duration")], ExpectedNumber)])
      else if d.n < 0 then Failure([Issue(path + [Key("duration")], TooSmall)])
      else Success(TrainingTimerPhase(d.n, Field(f, "exercise")))
    case _ => Failure([Issue(path, ExpectedObject)])
  }

  /** The elements `items[i..]` of `z.array(trainingTimerPhaseSchema)`, each at its own index under `phases`. */
  function ParsePhaseItems(items: seq<Raw>, i: nat): Result<seq<TrainingTimerPhase>, seq<Issue>>
    requires i <= |items|
    decreases |items| - i
  {
    if i == |items| then Success([])
    else
      var head := ParsePhase(items[i], [Key("phases"), Index(i)]);
      var rest := ParsePhaseItems(items, i + 1);
      if head.Success? && rest.Success? then Success([head.value] + rest.value)
      else Failure(IssuesOf(head) + IssuesOf(rest))
  }

  function ParsePhases(raw: Raw): (r: Result<seq<TrainingTimerPhase>, seq<Issue>>)
    ensures r.Success? <==> raw.RArray? && forall k :: 0 <= k < |raw.items| ==> IsPhaseObject(raw.items[k])
    ensures r.Success? ==> |r.value| == |raw.items|
    ensures r.Failure? ==> r.error != []
  {
    match raw
    case RArray(items) => ParsePhaseItemsCorrect(items, 0); ParsePhaseItems(items, 0)
    case _ => Failure([Issue([Key("phases")], ExpectedArray)])
  }

  /** `trainingTimerSchema.parse(input)`: the typed value, or every issue found. */
  function Validate(input: Raw): (r: Result<TrainingTimer, seq<Issue>>)
    ensures r.Success? <==> IsWorkoutDescription(input)
    ensures r.Failure? ==> r.error != []
  {
    match input
    case RObject(f) =>
      var wt := ParseWorkoutType(Field(f, "workoutType"), [Key("workoutType")]);
      var ps := ParsePhases(Field(f, "phases"));
      if wt.Success? && ps.Success? then Success(TrainingTimer(wt.value, ps.value))
      else Failure(IssuesOf(wt) + IssuesOf(ps))
    case _ => Failure([Issue([], ExpectedObject)])
  }

  // ---------------------------------------------------------------------------------------
  // An independent description of the accepted inputs, and the lemmas tying Validate to it.

  predicate IsPhaseObject(raw: Raw) {
    raw.RObject? && Field(raw.fields, "duration").RNumber? && Field(raw.fields, "duration").n >= 0
  }

  /** A raw value the schema accepts: an object with a WorkoutType name and an array of phase objects. */
  predicate IsWorkoutDescription(raw: Raw) {
    && raw.RObject?
    && Field(raw.fields, "workoutType").RString?
    && WorkoutTypeFromName(Field(raw.fields, "workoutType").s).Some?
    && Field(raw.fields, "phases").RArray?
    && forall k :: 0 <= k < |Field(raw.fields, "phases").items| ==> IsPhaseObject(Field(raw.fields, "phases").items[k])
  }

  /** What a decoded phase holds: the raw duration and the raw exercise, untouched. */
  predicate DecodesTo(raw: Raw, p: TrainingTimerPhase) {
    IsPhaseObject(raw) && p.duration == Field(raw.fields, "duration").n && p.exercise == Field(raw.fields, "exercise")
  }

  lemma {:induction false} ParsePhaseItemsCorrect(items: seq<Raw>, i: nat)
    requires i <= |items|
    ensures var r := ParsePhaseItems(items, i);
      && (r.Success? <==> forall k :: i <= k < |items| ==> IsPhaseObject(items[k]))
      && (r.Success? ==> |r.value| == |items| - i && forall k :: 0 <= k < |r.value| ==> DecodesTo(items[i + k], r.value[k]))
      && (r.Failure? ==> r.error != [])
    decreases |items| - i
  {
    if i < |items| {
      ParsePhaseItemsCorrect(items, i + 1);
      var r := ParsePhaseItems(items, i);
      var rest := ParsePhaseItems(items, i + 1);
      if r.Success? {
        forall k | 0 <= k < |r.value| ensures DecodesTo(items[i + k], r.value[k]) {
          if k > 0 { assert r.value[k] == rest.value[k - 1]; }
        }
      }
    }
  }

  /** The schema accepts exactly the workout descriptions, and decodes them field for field. */
  lemma ValidateCorrect(input: Raw)
    ensures Validate(input).Success? <==> IsWorkoutDescription(input)
    ensures Validate(input).Success? ==>
      var tt := Validate(input).value;
      var items := Field(input.fields, "phases").items;
      && WorkoutTypeName(tt.workoutType) == Field(input.fields, "workoutType").s
      && |tt.phases| == |items|
      && forall k :: 0 <= k < |items| ==> DecodesTo(items[k], tt.phases[k])
    ensures Validate(input).Failure? ==> Validate(input).error != []
  {
    if input.RObject? {
      var p := Field(input.fields, "phases");
      if p.RArray? {
        ParsePhaseItemsCorrect(p.items, 0);
        assert ParsePhases(p) == ParsePhaseItems(p.items, 0);
      }
    }
  }

  /** null, undefined and every other non-object fail at the root path. */
  lemma NonObjectRejected(input: Raw)
    requires !input.RObject?
    ensures Validate(input) == Failure([Issue([], ExpectedObject)])
  {
  }

  /** An object without `phases` is rejected, with an issue at `phases`. */
  lemma MissingPhasesRejected(fields: map<string, Raw>)
    requires "phases" !in fields
    ensures Validate(RObject(fields)).Failure?
    ensures Issue([Key("phases")], ExpectedArray) in Validate(RObject(fields)).error
  {
  }

  /** A string that names no WorkoutType is rejected, and the first issue is at `workoutType`. */
  lemma UnknownWorkoutTypeRejected(fields: map<string, Raw>, name: string)
    requires Field(fields, "workoutType") == RString(name)
    requires forall t: WorkoutType :: WorkoutTypeName(t) != name
    ensures Validate(RObject(fields)).Failure?
    ensures Validate(RObject(fields)).error[0] == Issue([Key("workoutType")], InvalidEnumValue)
  {
  }

  lemma {:induction false} FirstNegativeDurationItems(items: seq<Raw>, i: nat, first: nat)
    requires i <= first < |items|
    requires forall k :: 0 <= k < |items| ==> items[k].RObject? && Field(items[k].fields, "duration").RNumber?
    requires forall k :: i <= k < first ==> Field(items[k].fields, "duration").n >= 0
    requires Field(items[first].fields, "duration").n < 0
    ensures ParsePhaseItems(items, i).Failure?
    ensures ParsePhaseItems(items, i).error != []
    ensures ParsePhaseItems(items, i).error[0] == Issue([Key("phases"), Index(first), Key("duration")], TooSmall)
    decreases first - i
  {
    if i < first {
      FirstNegativeDurationItems(items, i + 1, first);
    }
  }

  /**
   * With a valid type and phase objects with numeric durations, the first issue is the
   * `too_small` of the first phase whose duration is negative, at `phases[first].duration`.
   */
  lemma FirstNegativeDurationReported(fields: map<string, Raw>, first: nat)
    requires Field(fields, "workoutType").RString? && WorkoutTypeFromName(Field(fields, "workoutType").s).Some?
    requires Field(fields, "phases").RArray?
    requires var items := Field(fields, "phases").items;
      && first < |items|
      && (forall k :: 0 <= k < |items| ==> items[k].RObject? && Field(items[k].fields, "duration").RNumber?)
      && (forall k :: 0 <= k < first ==> Field(items[k].fields, "duration").n >= 0)
      && Field(items[first].fields, "duration").n < 0
    ensures Validate(RObject(fields)).Failure? && Validate(RObject(fields)).error != []
    ensures Validate(RObject(fields)).error[0] == Issue([Key("phases"), Index(first), Key("duration")], TooSmall)
  {
    FirstNegativeDurationItems(Field(fields, "phases").items, 0, first);
  }
}
