/** Scheduled percentage rollouts: one schedule of `src/flags/rolloutScheduleRegistry.ts` and its
    evaluation in `src/flags/rolloutEvaluator.ts`. Times are milliseconds; a time stamp that does
    not parse and a percentage that is not an integer are `None`. */
module RolloutSchedules {
  import opened Results
  import JsText

  datatype Step = Step(percentage: int, at: int)

  datatype RawStep = RawStep(percentage: Option<int>, at: Option<int>)

  datatype Status = Pending | Active | Paused | RolledBack | Completed

  datatype HistoryAction = Created | AdvancedTo | PausedBy | ResumedBy | RolledBackTo

  datatype Entry = Entry(action: HistoryAction, stepIndex: int, percentage: int, actor: string, reason: Option<string>)

  /** Sequence number and random suffix of a schedule id. */
  datatype ScheduleId = ScheduleId(number: nat, suffix: string)

  datatype Schedule = Schedule(
    id: ScheduleId, flag: string, tenantId: string, environment: string,
    steps: seq<Step>, status: Status, stepIndex: int, percentage: int,
    createdBy: string, history: seq<Entry>)

  datatype ErrorCode =
    | UnknownFlag | UnknownEnvironment | MissingTenant | MissingActor | EmptySteps | TooManySteps
    | InvalidPercentage | InvalidTimestamp | StepsNotChronological | StepsNotIncreasing
    | ScheduleInFlight | NotFound | InvalidStateTransition | AlreadyPaused
    | AlreadyRolledBack | MissingReason | NothingToRollback | InvalidRollbackTarget

  const MAX_STEPS := 50
  const SCHEDULER_ACTOR := "scheduler"

  // ---------------------------------------------------------------- validated steps

  /** Chronological, with strictly increasing percentages between 1 and 100. */
  predicate ValidSteps(steps: seq<Step>) {
    && 0 < |steps| <= MAX_STEPS
    && (forall i :: 0 <= i < |steps| ==> 1 <= steps[i].percentage <= 100)
    && (forall i, j :: 0 <= i < j < |steps| ==> steps[i].at < steps[j].at && steps[i].percentage < steps[j].percentage)
  }

  /** The check of step `i` of `validateCreateInput`, given that the steps before it passed. */
  function StepError(steps: seq<RawStep>, i: nat): Option<ErrorCode>
    requires i < |steps|
    requires i > 0 ==> steps[i - 1].percentage.Some? && steps[i - 1].at.Some?
  {
    var s := steps[i];
    if s.percentage.None? || s.percentage.value < 1 || s.percentage.value > 100 then Some(InvalidPercentage)
    else if s.at.None? then Some(InvalidTimestamp)
    else if i > 0 && s.at.value <= steps[i - 1].at.value then Some(StepsNotChronological)
    else if i > 0 && s.percentage.value <= steps[i - 1].percentage.value then Some(StepsNotIncreasing)
    else None
  }

  /** `steps` are `raw` with every field present. */
  predicate Parses(raw: seq<RawStep>, steps: seq<Step>) {
    |raw| == |steps| && forall i :: 0 <= i < |raw| ==> raw[i] == RawStep(Some(steps[i].percentage), Some(steps[i].at))
  }

  /** The step loop of `validateCreateInput`: it accepts exactly the valid step lists. */
  method ValidateSteps(raw: seq<RawStep>) returns (r: Result<seq<Step>, ErrorCode>)
    ensures r.Ok? ==> ValidSteps(r.value) && Parses(raw, r.value)
    ensures r.Err? ==> forall steps :: Parses(raw, steps) ==> !ValidSteps(steps)
  {
    if |raw| == 0 {
      return Err(EmptySteps);
    }
    if |raw| > MAX_STEPS {
      return Err(TooManySteps);
    }
    var steps: seq<Step> := [];
    for i := 0 to |raw|
      invariant |steps| == i && Parses(raw[..i], steps)
      invariant i > 0 ==> ValidSteps(steps)
    {
      var error := StepError(raw, i);
      if error.Some? {
        forall good: seq<Step> | Parses(raw, good)
          ensures !ValidSteps(good)
        {
          assert raw[i] == RawStep(Some(good[i].percentage), Some(good[i].at));
          assert i > 0 ==> raw[i - 1] == RawStep(Some(good[i - 1].percentage), Some(good[i - 1].at));
        }
        return Err(error.value);
      }
      ValidStepsGrow(steps, Step(raw[i].percentage.value, raw[i].at.value));
      steps := steps + [Step(raw[i].percentage.value, raw[i].at.value)];
    }
    assert raw[..|raw|] == raw;
    return Ok(steps);
  }

  lemma ValidStepsGrow(steps: seq<Step>, s: Step)
    requires steps == [] || ValidSteps(steps)
    requires |steps| < MAX_STEPS && 1 <= s.percentage <= 100
    requires steps != [] ==> steps[|steps| - 1].at < s.at && steps[|steps| - 1].percentage < s.percentage
    ensures ValidSteps(steps + [s])
  {
  }

  // ---------------------------------------------------------------- due steps

  /** `k` is the highest step whose time has passed, or -1: all steps up to `k` are due, no
      later one is. */
  predicate IsLatestDue(steps: seq<Step>, now: int, k: int) {
    && -1 <= k < |steps|
    && (forall i :: 0 <= i <= k ==> steps[i].at <= now)
    && (forall i :: k < i < |steps| ==> now < steps[i].at)
  }

  /** Counts the due steps at the front. */
  function DueIndex(steps: seq<Step>, now: int): int {
    if steps == [] || steps[0].at > now then -1 else 1 + DueIndex(steps[1..], now)
  }

  lemma {:induction false} DuePrefix(steps: seq<Step>, now: int)
    ensures var k := DueIndex(steps, now);
            && -1 <= k < |steps| && (forall i :: 0 <= i <= k ==> steps[i].at <= now)
            && (k + 1 < |steps| ==> now < steps[k + 1].at)
  {
    if steps != [] && steps[0].at <= now {
      DuePrefix(steps[1..], now);
      var k := DueIndex(steps, now);
      forall i | 0 <= i <= k
        ensures steps[i].at <= now
      {
        if i > 0 {
          assert steps[i] == steps[1..][i - 1];
        }
      }
    }
  }

  /** On validated steps the count is the index of the latest due step. */
  lemma DueIndexIsLatest(steps: seq<Step>, now: int)
    requires ValidSteps(steps)
    ensures IsLatestDue(steps, now, DueIndex(steps, now))
    ensures forall k :: IsLatestDue(steps, now, k) ==> k == DueIndex(steps, now)
  {
    DuePrefix(steps, now);
    var d := DueIndex(steps, now);
    forall k | IsLatestDue(steps, now, k)
      ensures k == d
    {
      assert d >= 0 ==> steps[d].at <= now;
      assert d + 1 < |steps| ==> now < steps[d + 1].at;
    }
  }

  lemma DueIndexMonotone(steps: seq<Step>, t: int, u: int)
    requires ValidSteps(steps) && t <= u
    ensures DueIndex(steps, t) <= DueIndex(steps, u)
  {
    DueIndexIsLatest(steps, t);
    DueIndexIsLatest(steps, u);
    var d := DueIndex(steps, u);
    assert d + 1 < |steps| ==> u < steps[d + 1].at;
  }

  /** `computeDueStepIndex`. */
  method ComputeDueStepIndex(steps: seq<Step>, now: int) returns (due: int)
    ensures due == DueIndex(steps, now)
  {
    due := -1;
    var i := 0;
    while i < |steps| && steps[i].at <= now
      invariant 0 <= i <= |steps| && due == i - 1
      invariant DueIndex(steps, now) == i + DueIndex(steps[i..], now)
    {
      assert steps[i..][1..] == steps[i + 1..];
      due := due + 1;
      i := i + 1;
    }
  }

  // ---------------------------------------------------------------- transitions of one schedule

  function StatusFor(stepIndex: int, count: nat): Status {
    if stepIndex < 0 then Pending else if stepIndex == count - 1 then Completed else Active
  }

  function PercentAt(steps: seq<Step>, stepIndex: int): int
    requires -1 <= stepIndex < |steps|
  {
    if stepIndex < 0 then 0 else steps[stepIndex].percentage
  }

  function Record(s: Schedule, action: HistoryAction, actor: string, reason: Option<string>): Schedule {
    s.(history := s.history + [Entry(action, s.stepIndex, s.percentage, actor, reason)])
  }

  function NewSchedule(id: ScheduleId, flag: string, tenantId: string, environment: string, steps: seq<Step>,
      actor: string): Schedule
  {
    Record(Schedule(id, flag, tenantId, environment, steps, Pending, -1, 0, actor, []), Created, actor, None)
  }

  function ApplyAdvance(s: Schedule, stepIndex: int, actor: string): Schedule
    requires 0 <= stepIndex < |s.steps|
  {
    Record(s.(stepIndex := stepIndex, percentage := s.steps[stepIndex].percentage,
        status := StatusFor(stepIndex, |s.steps|)),
           AdvancedTo, actor, None)
  }

  function CatchUp(s: Schedule, now: int, actor: string): Schedule {
    var due := DueIndex(s.steps, now);
    DuePrefix(s.steps, now);
    if 0 <= due && due > s.stepIndex then ApplyAdvance(s, due, actor) else s
  }

  predicate Skipped(s: Schedule) {
    s.status in {Paused, RolledBack, Completed}
  }

  function Tick(s: Schedule, now: int): Schedule {
    if Skipped(s) then s else CatchUp(s, now, SCHEDULER_ACTOR)
  }

  function Pause(s: Schedule, actor: string, reason: Option<string>): Result<Schedule, ErrorCode> {
    if s.status in {RolledBack, Completed} then Err(InvalidStateTransition)
    else if s.status.Paused? then Err(AlreadyPaused)
    else if JsText.Trim(actor) == "" then Err(MissingActor)
    else Ok(Record(s.(status := Paused), PausedBy, JsText.Trim(actor), reason))
  }

  function Resume(s: Schedule, actor: string, now: int): Result<Schedule, ErrorCode> {
    if !s.status.Paused? then Err(InvalidStateTransition)
    else if JsText.Trim(actor) == "" then Err(MissingActor)
    else
      var resumed := Record(s.(status := StatusFor(s.stepIndex, |s.steps|)), ResumedBy, JsText.Trim(actor), None);
      Ok(CatchUp(resumed, now, JsText.Trim(actor)))
  }

  function Rollback(s: Schedule, actor: string, reason: string, toStepIndex: Option<int>): Result<Schedule, ErrorCode> {
    if s.status.RolledBack? then Err(AlreadyRolledBack)
    else if JsText.Trim(actor) == "" then Err(MissingActor)
    else if JsText.Trim(reason) == "" then Err(MissingReason)
    else if s.stepIndex == -1 then Err(NothingToRollback)
    else
      var target := if toStepIndex.Some? then toStepIndex.value else s.stepIndex - 1;
      if target < -1 || target >= s.stepIndex || target >= |s.steps| then Err(InvalidRollbackTarget)
      else
        Ok(Record(s.(stepIndex := target, percentage := PercentAt(s.steps, target), status := RolledBack),
                  RolledBackTo, JsText.Trim(actor), Some(JsText.Trim(reason))))
  }

  // ---------------------------------------------------------------- what every transition keeps

  predicate EntryOk(steps: seq<Step>, e: Entry) {
    -1 <= e.stepIndex < |steps| && e.percentage == PercentAt(steps, e.stepIndex)
  }

  /** The audit history: starts with the creation, shows real steps and percentages, advances
      strictly upwards, and ends for good with a rollback. */
  predicate HistoryOk(s: Schedule) {
    && s.history != []
    && s.history[0].action == Created && s.history[0].stepIndex == -1
    && (forall i :: 0 < i < |s.history| ==> s.history[i].action != Created)
    && (forall i :: 0 <= i < |s.history| ==> EntryOk(s.steps, s.history[i]))
    && (forall i, j :: 0 <= i < j < |s.history| && s.history[i].action == s.history[j].action == AdvancedTo ==>
          s.history[i].stepIndex < s.history[j].stepIndex)
    && (forall i :: 0 <= i < |s.history| - 1 ==> s.history[i].action != RolledBackTo)
    && (s.status != RolledBack ==> forall i :: 0 <= i < |s.history| ==> s.history[i].stepIndex <= s.stepIndex)
  }

  /** The last entry tells the current state. */
  predicate LastEntryMatches(s: Schedule) {
    && s.history != []
    && var last := s.history[|s.history| - 1];
       && last.stepIndex == s.stepIndex && last.percentage == s.percentage
       && (last.action == RolledBackTo <==> s.status == RolledBack)
       && (last.action == PausedBy <==> s.status == Paused)
  }

  predicate ScheduleOk(s: Schedule) {
    && ValidSteps(s.steps)
    && -1 <= s.stepIndex < |s.steps| && s.percentage == PercentAt(s.steps, s.stepIndex)
    && (s.status in {Pending, Active, Completed} ==> s.status == StatusFor(s.stepIndex, |s.steps|))
    && (s.status == Paused ==> s.stepIndex < |s.steps| - 1)
    && HistoryOk(s)
    && LastEntryMatches(s)
  }

  lemma NewScheduleOk(id: ScheduleId, flag: string, tenantId: string, environment: string, steps: seq<Step>,
      actor: string)
    requires ValidSteps(steps)
    ensures ScheduleOk(NewSchedule(id, flag, tenantId, environment, steps, actor))
  {
  }

  lemma RecordKeepsHistory(s: Schedule, t: Schedule, action: HistoryAction, actor: string, reason: Option<string>)
    requires HistoryOk(s) && s.status != RolledBack && t.steps == s.steps && t.history == s.history
    requires -1 <= t.stepIndex < |t.steps| && t.percentage == PercentAt(t.steps, t.stepIndex)
    requires s.history[|s.history| - 1].action != RolledBackTo
    requires action != Created
    requires action == AdvancedTo ==> t.stepIndex > s.stepIndex
    requires t.status != RolledBack ==> t.stepIndex >= s.stepIndex
    ensures HistoryOk(Record(t, action, actor, reason))
  {
  }

  lemma CatchUpKeepsOk(s: Schedule, now: int, actor: string)
    requires ScheduleOk(s) && s.status in {Pending, Active, Completed}
    ensures var t := CatchUp(s, now, actor);
            ScheduleOk(t) && t.status in {Pending, Active, Completed} && t.stepIndex >= s.stepIndex
  {
    DuePrefix(s.steps, now);
    var due := DueIndex(s.steps, now);
    if due > s.stepIndex {
      var t := s.(stepIndex := due, percentage := s.steps[due].percentage, status := StatusFor(due, |s.steps|));
      RecordKeepsHistory(s, t, AdvancedTo, actor, None);
    }
  }

  lemma TickKeepsOk(s: Schedule, now: int)
    requires ScheduleOk(s)
    ensures ScheduleOk(Tick(s, now))
  {
    if !Skipped(s) {
      CatchUpKeepsOk(s, now, SCHEDULER_ACTOR);
    }
  }

  lemma PauseKeepsOk(s: Schedule, actor: string, reason: Option<string>)
    requires ScheduleOk(s) && Pause(s, actor, reason).Ok?
    ensures ScheduleOk(Pause(s, actor, reason).value)
  {
    RecordKeepsHistory(s, s.(status := Paused), PausedBy, JsText.Trim(actor), reason);
  }

  lemma ResumeKeepsOk(s: Schedule, actor: string, now: int)
    requires ScheduleOk(s) && Resume(s, actor, now).Ok?
    ensures ScheduleOk(Resume(s, actor, now).value)
  {
    var t := s.(status := StatusFor(s.stepIndex, |s.steps|));
    RecordKeepsHistory(s, t, ResumedBy, JsText.Trim(actor), None);
    CatchUpKeepsOk(Record(t, ResumedBy, JsText.Trim(actor), None), now, JsText.Trim(actor));
  }

  lemma RollbackKeepsOk(s: Schedule, actor: string, reason: string, toStepIndex: Option<int>)
    requires ScheduleOk(s) && Rollback(s, actor, reason, toStepIndex).Ok?
    ensures var t := Rollback(s, actor, reason, toStepIndex).value;
            ScheduleOk(t) && t.status == RolledBack && t.percentage < s.percentage
  {
    var target := if toStepIndex.Some? then toStepIndex.value else s.stepIndex - 1;
    var t := s.(stepIndex := target, percentage := PercentAt(s.steps, target), status := RolledBack);
    RecordKeepsHistory(s, t, RolledBackTo, JsText.Trim(actor), Some(JsText.Trim(reason)));
    LowerStep(s.steps, target, s.stepIndex);
  }

  lemma LowerStep(steps: seq<Step>, lower: int, higher: int)
    requires ValidSteps(steps) && -1 <= lower < higher < |steps|
    ensures PercentAt(steps, lower) < PercentAt(steps, higher)
  {
  }

  // ---------------------------------------------------------------- missed ticks

  /** What can happen to one schedule short of a rollback; a command that is refused changes
      nothing. */
  datatype Op = TickAt(now: int) | PauseOp(actor: string, reason: Option<string>) | ResumeAt(actor: string, now: int)

  function Do(s: Schedule, op: Op): Schedule {
    match op
    case TickAt(now) => Tick(s, now)
    case PauseOp(actor, reason) => if Pause(s, actor, reason).Ok? then Pause(s, actor, reason).value else s
    case ResumeAt(actor, now) => if Resume(s, actor, now).Ok? then Resume(s, actor, now).value else s
  }

  function DoAll(s: Schedule, ops: seq<Op>): Schedule {
    if ops == [] then s else Do(DoAll(s, ops[..|ops| - 1]), ops[|ops| - 1])
  }

  /** The latest time at which the schedule was looked at while not paused. */
  function Clock(s: Schedule, ops: seq<Op>): Option<int> {
    if ops == [] then None
    else NextClock(DoAll(s, ops[..|ops| - 1]), ops[|ops| - 1], Clock(s, ops[..|ops| - 1]))
  }

  function NextClock(s: Schedule, op: Op, clock: Option<int>): Option<int> {
    match op
    case TickAt(now) => if s.status.Paused? then clock else Later(clock, now)
    case PauseOp(_, _) => clock
    case ResumeAt(actor, now) => if Resume(s, actor, now).Ok? then Later(clock, now) else clock
  }

  function Later(t: Option<int>, now: int): Option<int> {
    if t.Some? && t.value > now then t else Some(now)
  }

  function DueAt(steps: seq<Step>, t: Option<int>): int {
    if t.None? then -1 else DueIndex(steps, t.value)
  }

  /** Catching up leaves the later of the two due steps, so an index that was due at `t` becomes
      the index due at the later of `t` and `now`. */
  lemma CatchUpReachesDue(s: Schedule, now: int, actor: string, t: Option<int>)
    requires ScheduleOk(s) && s.stepIndex == DueAt(s.steps, t)
    ensures CatchUp(s, now, actor).stepIndex == DueAt(s.steps, Later(t, now))
    ensures CatchUp(s, now, actor).steps == s.steps
  {
    DuePrefix(s.steps, now);
    if t.Some? {
      DuePrefix(s.steps, t.value);
      if t.value <= now {
        DueIndexMonotone(s.steps, t.value, now);
      } else {
        DueIndexMonotone(s.steps, now, t.value);
      }
    }
  }

  /** The schedule stands at the step due at `clock`. */
  predicate OnTrack(s: Schedule, clock: Option<int>) {
    ScheduleOk(s) && s.status != RolledBack && s.stepIndex == DueAt(s.steps, clock)
  }

  lemma TickStaysOnTrack(s: Schedule, now: int, clock: Option<int>)
    requires OnTrack(s, clock) && s.status != Paused
    ensures OnTrack(Tick(s, now), Later(clock, now)) && Tick(s, now).steps == s.steps
  {
    if s.status == Completed {
      DuePrefix(s.steps, Later(clock, now).value);
      if clock.Some? {
        DueIndexMonotone(s.steps, clock.value, Later(clock, now).value);
      }
    } else {
      CatchUpReachesDue(s, now, SCHEDULER_ACTOR, clock);
      CatchUpKeepsOk(s, now, SCHEDULER_ACTOR);
    }
  }

  lemma ResumeStaysOnTrack(s: Schedule, actor: string, now: int, clock: Option<int>)
    requires OnTrack(s, clock) && Resume(s, actor, now).Ok?
    ensures OnTrack(Resume(s, actor, now).value, Later(clock, now)) && Resume(s, actor, now).value.steps == s.steps
  {
    var u := s.(status := StatusFor(s.stepIndex, |s.steps|));
    RecordKeepsHistory(s, u, ResumedBy, JsText.Trim(actor), None);
    var r := Record(u, ResumedBy, JsText.Trim(actor), None);
    CatchUpReachesDue(r, now, JsText.Trim(actor), clock);
    CatchUpKeepsOk(r, now, JsText.Trim(actor));
  }

  lemma OpStaysOnTrack(s: Schedule, op: Op, clock: Option<int>)
    requires OnTrack(s, clock)
    ensures OnTrack(Do(s, op), NextClock(s, op, clock)) && Do(s, op).steps == s.steps
  {
    match op {
      case TickAt(now) =>
        if s.status != Paused {
          TickStaysOnTrack(s, now, clock);
        }
      case PauseOp(actor, reason) =>
        if Pause(s, actor, reason).Ok? {
          PauseKeepsOk(s, actor, reason);
        }
      case ResumeAt(actor, now) =>
        if Resume(s, actor, now).Ok? {
          ResumeStaysOnTrack(s, actor, now, clock);
        }
    }
  }

  lemma {:induction false} RunStaysOnTrack(s: Schedule, ops: seq<Op>)
    requires OnTrack(s, None)
    ensures OnTrack(DoAll(s, ops), Clock(s, ops)) && DoAll(s, ops).steps == s.steps
  {
    if ops != [] {
      RunStaysOnTrack(s, ops[..|ops| - 1]);
      OpStaysOnTrack(DoAll(s, ops[..|ops| - 1]), ops[|ops| - 1], Clock(s, ops[..|ops| - 1]));
    }
  }

  /** Missed ticks leave no trace: whatever ticks, pauses and resumes a new schedule goes
      through, its step is the latest one due at the latest effective time, its percentage is
      that step's and its status follows from the step unless it is paused. */
  lemma MissedTicksLeaveNoTrace(s: Schedule, ops: seq<Op>)
    requires ScheduleOk(s) && s.status == Pending
    ensures var t := DoAll(s, ops);
            && (match Clock(s, ops)
                case None => t.stepIndex == -1
                case Some(now) => IsLatestDue(s.steps, now, t.stepIndex))
            && -1 <= t.stepIndex < |s.steps| && t.percentage == PercentAt(s.steps, t.stepIndex)
            && (t.status == Paused || t.status == StatusFor(t.stepIndex, |s.steps|))
  {
    RunStaysOnTrack(s, ops);
    if Clock(s, ops).Some? {
      DueIndexIsLatest(s.steps, Clock(s, ops).value);
    }
  }

  /** Pausing, missing any number of ticks and resuming at `now` leaves the schedule where a
      plain tick at `now` would have put it. */
  lemma PauseIsTransparent(s: Schedule, ticks: seq<int>, pausedBy: string, reason: Option<string>, resumedBy: string,
      now: int)
    requires ScheduleOk(s) && s.status in {Pending, Active} && JsText.Trim(pausedBy) != "" &&
             JsText.Trim(resumedBy) != ""
    ensures var paused := Pause(s, pausedBy, reason).value;
            && Pause(s, pausedBy, reason).Ok? && TickAll(paused, ticks) == paused
            && Resume(TickAll(paused, ticks), resumedBy, now).Ok?
            && var resumed := Resume(TickAll(paused, ticks), resumedBy, now).value;
               var ticked := Tick(s, now);
               resumed.stepIndex == ticked.stepIndex && resumed.percentage == ticked.percentage &&
                   resumed.status == ticked.status
  {
    PausedIgnoresTicks(Pause(s, pausedBy, reason).value, ticks);
    DuePrefix(s.steps, now);
  }

  function TickAll(s: Schedule, ticks: seq<int>): Schedule
    decreases |ticks|
  {
    if ticks == [] then s else TickAll(Tick(s, ticks[0]), ticks[1..])
  }

  lemma {:induction false} PausedIgnoresTicks(s: Schedule, ticks: seq<int>)
    requires s.status == Paused
    ensures TickAll(s, ticks) == s
    decreases |ticks|
  {
    if ticks != [] {
      PausedIgnoresTicks(s, ticks[1..]);
    }
  }

  // ---------------------------------------------------------------- evaluation

  /** The UTF-16 code units of a character: two above U+FFFF. */
  function UnitsOf(c: char): seq<bv32> {
    var n := c as int;
    if n < 0x1_0000 then [n as bv32]
    else [(0xD800 + (n - 0x1_0000) / 0x400) as bv32, (0xDC00 + (n - 0x1_0000) % 0x400) as bv32]
  }

  function CodeUnits(s: string): seq<bv32> {
    if s == [] then [] else UnitsOf(s[0]) + CodeUnits(s[1..])
  }

  /** 32-bit FNV-1a. */
  function Fnv1a(units: seq<bv32>, hash: bv32): bv32 {
    if units == [] then hash else Fnv1a(units[1..], Mix(hash, units[0]))
  }

  function Mix(hash: bv32, unit: bv32): bv32 {
    (hash ^ unit) * 0x0100_0193
  }

  function HashToBucket(input: string): nat {
    Fnv1a(CodeUnits(input), 0x811c_9dc5) as nat % 100
  }

  /** `hashToBucket`. */
  method ComputeBucket(input: string) returns (bucket: nat)
    ensures bucket == HashToBucket(input) && bucket < 100
  {
    var hash := HashUnits(CodeUnits(input));
    bucket := hash as nat % 100;
  }

  method HashUnits(units: seq<bv32>) returns (hash: bv32)
    ensures hash == Fnv1a(units, 0x811c_9dc5)
  {
    hash := 0x811c_9dc5;
    var i := 0;
    while i < |units|
      invariant 0 <= i <= |units|
      invariant Fnv1a(units[i..], hash) == Fnv1a(units, 0x811c_9dc5)
    {
      HashOneMore(units, i, hash);
      hash := Mix(hash, units[i]);
      i := i + 1;
    }
  }

  lemma HashOneMore(units: seq<bv32>, i: nat, hash: bv32)
    requires i < |units|
    ensures Fnv1a(units[i..], hash) == Fnv1a(units[i + 1..], Mix(hash, units[i]))
  {
    assert units[i..][1..] == units[i + 1..];
  }

  /** A larger percentage admits everyone a smaller one does, and whom it adds is decided by the
      bucket alone. */
  lemma AudienceGrowsByBuckets(bucketKey: string, smaller: int, larger: int)
    requires 0 <= smaller <= larger <= 100
    ensures IsBucketedIn(bucketKey, smaller) ==> IsBucketedIn(bucketKey, larger)
    ensures IsBucketedIn(bucketKey, larger) && !IsBucketedIn(bucketKey, smaller) <==>
            smaller <= HashToBucket(bucketKey) < larger
  {
  }

  predicate IsBucketedIn(bucketKey: string, percentage: int) {
    if percentage >= 100 then true
    else if percentage <= 0 then false
    else HashToBucket(bucketKey) < percentage
  }

  /** The ramp is sticky: nobody who is in drops out, however the schedule goes on ticking,
      being paused and being resumed; only a rollback shrinks the audience. */
  lemma {:induction false} RampIsSticky(s: Schedule, ops: seq<Op>, bucketKey: string)
    requires OnTrack(s, None)
    ensures forall n :: 0 <= n <= |ops| && IsBucketedIn(bucketKey, DoAll(s, ops[..n]).percentage) ==>
              IsBucketedIn(bucketKey, DoAll(s, ops).percentage)
  {
    if ops != [] {
      var before := ops[..|ops| - 1];
      RampIsSticky(s, before, bucketKey);
      RunStaysOnTrack(s, before);
      NeverStepsDown(DoAll(s, before), ops[|ops| - 1]);
      forall n | 0 <= n <= |ops| && IsBucketedIn(bucketKey, DoAll(s, ops[..n]).percentage)
        ensures IsBucketedIn(bucketKey, DoAll(s, ops).percentage)
      {
        if n < |ops| {
          assert before[..n] == ops[..n];
        } else {
          assert ops[..n] == ops;
        }
      }
    } else {
      assert ops[..0] == ops;
    }
  }

  lemma NeverStepsDown(s: Schedule, op: Op)
    requires ScheduleOk(s)
    ensures Do(s, op).percentage >= s.percentage
  {
    match op {
      case TickAt(now) =>
        if !Skipped(s) {
          CatchUpKeepsOk(s, now, SCHEDULER_ACTOR);
          StepsUp(s, CatchUp(s, now, SCHEDULER_ACTOR));
        }
      case PauseOp(_, _) =>
      case ResumeAt(actor, now) =>
        if Resume(s, actor, now).Ok? {
          ResumeKeepsOk(s, actor, now);
          StepsUp(s, Resume(s, actor, now).value);
        }
    }
  }

  lemma StepsUp(s: Schedule, t: Schedule)
    requires ScheduleOk(s) && ScheduleOk(t) && t.steps == s.steps && s.stepIndex <= t.stepIndex
    ensures s.percentage <= t.percentage
  {
  }
}
