/** The registry of `src/flags/rolloutScheduleRegistry.ts`: schedules by id, and for each
    (flag, environment, tenant) key the schedule that governs it. */
module RolloutRegistry {
  import opened Results
  import opened RolloutSchedules
  import JsText

  const FLAGS := ["CREATE_SLOT", "CREATE_BOOKING_INTENT", "CHECKOUT", "SMS_NOTIFICATIONS", "SEARCH_LTR_RERANKER"]
  const ENVIRONMENTS := ["development", "test", "production"]
  const ALL_TENANTS := "*"

  datatype CreateInput = CreateInput(flag: string, tenantId: string, environment: string, steps: seq<RawStep>,
      actor: string)

  predicate InFlight(s: Schedule) {
    s.status in {Pending, Active, Paused}
  }

  // ---------------------------------------------------------------- keys

  function Key(flag: string, tenantId: string, environment: string): string {
    flag + "::" + (environment + "::" + tenantId)
  }

  lemma HeadUntilColon(a: string, x: string, b: string, y: string)
    requires ':' !in a && ':' !in b && a + "::" + x == b + "::" + y
    ensures a == b && x == y
  {
    var s := a + "::" + x;
    assert s == b + "::" + y;
    assert s[|a|] == ':' && s[|b|] == ':';
    assert a == s[..|a|] && b == s[..|b|];
    assert x == s[|a| + 2..] && y == s[|b| + 2..];
  }

  lemma NoColonInNames(name: string)
    requires name in FLAGS || name in ENVIRONMENTS
    ensures ':' !in name
  {
  }

  /** Different (flag, environment, tenant) triples never share a key. */
  lemma KeyIsInjective(f: string, t: string, e: string, f': string, t': string, e': string)
    requires f in FLAGS && f' in FLAGS && e in ENVIRONMENTS && e' in ENVIRONMENTS
    requires Key(f, t, e) == Key(f', t', e')
    ensures f == f' && e == e' && t == t'
  {
    NoColonInNames(f);
    NoColonInNames(f');
    NoColonInNames(e);
    NoColonInNames(e');
    HeadUntilColon(f, e + "::" + t, f', e' + "::" + t');
    HeadUntilColon(e, t, e', t');
  }

  // ---------------------------------------------------------------- state and transitions

  /** `order` is the iteration order of the `schedules` map. */
  datatype State = State(schedules: map<ScheduleId, Schedule>, order: seq<ScheduleId>,
      current: map<string, ScheduleId>, nextSeq: nat)

  const Empty := State(map[], [], map[], 1)

  /** The checks of `validateCreateInput` before the step loop. */
  function HeaderError(input: CreateInput): Option<ErrorCode> {
    if input.flag !in FLAGS then Some(UnknownFlag)
    else if input.environment !in ENVIRONMENTS then Some(UnknownEnvironment)
    else if JsText.Trim(input.tenantId) == "" then Some(MissingTenant)
    else if JsText.Trim(input.actor) == "" then Some(MissingActor)
    else None
  }

  predicate Blocked(r: State, key: string) {
    key in r.current && r.current[key] in r.schedules && InFlight(r.schedules[r.current[key]])
  }

  /** A successful `create` with validated `steps`. */
  function AddSchedule(r: State, input: CreateInput, steps: seq<Step>, suffix: string): State {
    var id := ScheduleId(r.nextSeq, suffix);
    var s := NewSchedule(id, input.flag, JsText.Trim(input.tenantId), input.environment, steps,
        JsText.Trim(input.actor));
    State(r.schedules[id := s], if id in r.schedules then r.order else r.order + [id],
          r.current[Key(input.flag, input.tenantId, input.environment) := id], r.nextSeq + 1)
  }

  function Put(r: State, s: Schedule): State {
    r.(schedules := r.schedules[s.id := s])
  }

  function TickEach(m: map<ScheduleId, Schedule>, now: int): map<ScheduleId, Schedule> {
    map id | id in m :: Tick(m[id], now)
  }

  /** After visiting the first `n` ids. */
  function TickFirst(m: map<ScheduleId, Schedule>, order: seq<ScheduleId>, n: nat, now: int): map<ScheduleId, Schedule>
    requires n <= |order|
  {
    map id | id in m :: if id in order[..n] then Tick(m[id], now) else m[id]
  }

  lemma TickFirstGrows(m: map<ScheduleId, Schedule>, order: seq<ScheduleId>, n: nat, now: int)
    requires n < |order| && order[n] in m && order[n] !in order[..n]
    ensures TickFirst(m, order, n, now)[order[n]] == m[order[n]]
    ensures TickFirst(m, order, n + 1, now) == TickFirst(m, order, n, now)[order[n] := Tick(m[order[n]], now)]
    ensures Tick(m[order[n]], now) == m[order[n]] ==> TickFirst(m, order, n + 1, now) == TickFirst(m, order, n, now)
  {
    assert order[..n + 1] == order[..n] + [order[n]];
  }

  lemma TickFirstAll(m: map<ScheduleId, Schedule>, order: seq<ScheduleId>, now: int)
    requires forall id :: id in order <==> id in m
    ensures TickFirst(m, order, 0, now) == m
    ensures TickFirst(m, order, |order|, now) == TickEach(m, now)
  {
    assert order[..|order|] == order;
  }

  /** The schedules among the first `n` ids that a tick changes, in order. */
  function Moved(m: map<ScheduleId, Schedule>, order: seq<ScheduleId>, n: nat, now: int): seq<Schedule>
    requires n <= |order|
  {
    if n == 0 then []
    else
      var id := order[n - 1];
      Moved(m, order, n - 1, now) + if id in m && Tick(m[id], now) != m[id] then [Tick(m[id], now)] else []
  }

  /** The body of the loop of `advanceDue`. */
  method TickSchedule(s: Schedule, now: int) returns (t: Schedule)
    ensures t == Tick(s, now)
  {
    if s.status == Paused || s.status == RolledBack || s.status == Completed {
      return s;
    }
    var due := ComputeDueStepIndex(s.steps, now);
    DuePrefix(s.steps, now);
    if 0 <= due && due > s.stepIndex {
      return ApplyAdvance(s, due, SCHEDULER_ACTOR);
    }
    return s;
  }

  datatype Command =
    | CreateCmd(input: CreateInput, steps: seq<Step>, suffix: string)
    | TickCmd(now: int)
    | PauseCmd(id: ScheduleId, actor: string, reason: Option<string>)
    | ResumeCmd(id: ScheduleId, actor: string, now: int)
    | RollbackCmd(id: ScheduleId, actor: string, why: string, toStepIndex: Option<int>)

  /** The checks of `create`; `steps` are the validated form of the input's steps. */
  predicate Creates(r: State, c: Command)
    requires c.CreateCmd?
  {
    && HeaderError(c.input).None? && Parses(c.input.steps, c.steps) && ValidSteps(c.steps)
    && !Blocked(r, Key(c.input.flag, c.input.tenantId, c.input.environment))
  }

  function PutResult(r: State, result: Result<Schedule, ErrorCode>): State {
    if result.Ok? then Put(r, result.value) else r
  }

  /** The state after a command; a refused command changes nothing. */
  function Next(r: State, c: Command): State {
    match c
    case CreateCmd(input, steps, suffix) => if Creates(r, c) then AddSchedule(r, input, steps, suffix) else r
    case TickCmd(now) => r.(schedules := TickEach(r.schedules, now))
    case PauseCmd(id, actor, reason) =>
        if id in r.schedules then PutResult(r, Pause(r.schedules[id], actor, reason)) else r
    case ResumeCmd(id, actor, now) => if id in r.schedules then PutResult(r, Resume(r.schedules[id], actor, now)) else r
    case RollbackCmd(id, actor, why, to) =>
        if id in r.schedules then PutResult(r, Rollback(r.schedules[id], actor, why, to)) else r
  }

  function RunAll(r: State, cs: seq<Command>): State {
    if cs == [] then r else Next(RunAll(r, cs[..|cs| - 1]), cs[|cs| - 1])
  }

  ghost function RunOne(cs: seq<Command>, c: Command): (longer: seq<Command>)
    ensures RunAll(Empty, longer) == Next(RunAll(Empty, cs), c)
  {
    assert (cs + [c])[..|cs|] == cs;
    cs + [c]
  }

  // ---------------------------------------------------------------- the class

  class RolloutScheduleRegistry {
    var schedules: map<ScheduleId, Schedule>
    var order: seq<ScheduleId>
    var currentByKey: map<string, ScheduleId>
    var nextSeq: nat
    ghost var commands: seq<Command>

    ghost function Abs(): State
      reads this
    {
      State(schedules, order, currentByKey, nextSeq)
    }

    /** The registry is in the state its commands so far lead to. */
    ghost predicate Valid()
      reads this
    {
      Abs() == RunAll(Empty, commands)
    }

    constructor ()
      ensures Valid() && Abs() == Empty
    {
      schedules, order, currentByKey, nextSeq := map[], [], map[], 1;
      commands := [];
    }

    method Create(input: CreateInput, suffix: string) returns (r: Result<Schedule, ErrorCode>)
      requires Valid()
      modifies this
      ensures Valid()
      ensures r.Ok? ==> exists steps ::
                && Creates(old(Abs()), CreateCmd(input, steps, suffix))
                && Abs() == Next(old(Abs()), CreateCmd(input, steps, suffix))
      ensures r.Ok? ==> r.value.id in schedules && r.value == schedules[r.value.id] && r.value.status == Pending
      ensures r.Err? ==> Abs() == old(Abs()) && !exists steps :: Creates(Abs(), CreateCmd(input, steps, suffix))
    {
      var header := HeaderError(input);
      if header.Some? {
        return Err(header.value);
      }
      var validated := ValidateSteps(input.steps);
      if validated.Err? {
        return Err(validated.error);
      }
      var steps := validated.value;
      var key := Key(input.flag, input.tenantId, input.environment);
      if key in currentByKey {
        var existing := currentByKey[key];
        if existing in schedules && InFlight(schedules[existing]) {
          return Err(ScheduleInFlight);
        }
      }
      assert Creates(Abs(), CreateCmd(input, steps, suffix));
      commands := RunOne(commands, CreateCmd(input, steps, suffix));
      var id := ScheduleId(nextSeq, suffix);
      nextSeq := nextSeq + 1;
      var s := NewSchedule(id, input.flag, JsText.Trim(input.tenantId), input.environment, steps,
          JsText.Trim(input.actor));
      order := if id in schedules then order else order + [id];
      schedules := schedules[id := s];
      currentByKey := currentByKey[key := id];
      return Ok(s);
    }

    /** `advanceDue`: visits the schedules in map order and reports those that moved. */
    method AdvanceDue(now: int) returns (advanced: seq<Schedule>)
      requires Valid()
      modifies this
      ensures Valid()
      ensures Abs() == Next(old(Abs()), TickCmd(now))
      ensures advanced == Moved(old(schedules), order, |order|, now)
    {
      ReachableBasics(commands);
      advanced := AdvanceInOrder(now);
      commands := RunOne(commands, TickCmd(now));
    }

    method AdvanceInOrder(now: int) returns (advanced: seq<Schedule>)
      requires OrderOk(Abs())
      modifies `schedules
      ensures schedules == TickEach(old(schedules), now)
      ensures advanced == Moved(old(schedules), order, |order|, now)
    {
      advanced := [];
      ghost var m := schedules;
      TickFirstAll(m, order, now);
      for i := 0 to |order|
        invariant schedules == TickFirst(m, order, i, now)
        invariant advanced == Moved(m, order, i, now)
      {
        TickFirstGrows(m, order, i, now);
        var s := schedules[order[i]];
        var t := TickSchedule(s, now);
        if t != s {
          schedules := schedules[order[i] := t];
          advanced := advanced + [t];
        }
      }
    }

    method PauseById(id: ScheduleId, actor: string, reason: Option<string>) returns (r: Result<Schedule, ErrorCode>)
      requires Valid()
      modifies this
      ensures Valid()
      ensures Abs() == Next(old(Abs()), PauseCmd(id, actor, reason))
      ensures r == if id in old(schedules) then Pause(old(schedules)[id], actor, reason) else Err(NotFound)
    {
      ReachableBasics(commands);
      commands := RunOne(commands, PauseCmd(id, actor, reason));
      if id !in schedules {
        return Err(NotFound);
      }
      r := Pause(schedules[id], actor, reason);
      if r.Ok? {
        schedules := schedules[id := r.value];
      }
    }

    method ResumeById(id: ScheduleId, actor: string, now: int) returns (r: Result<Schedule, ErrorCode>)
      requires Valid()
      modifies this
      ensures Valid()
      ensures Abs() == Next(old(Abs()), ResumeCmd(id, actor, now))
      ensures r == if id in old(schedules) then Resume(old(schedules)[id], actor, now) else Err(NotFound)
    {
      ReachableBasics(commands);
      commands := RunOne(commands, ResumeCmd(id, actor, now));
      if id !in schedules {
        return Err(NotFound);
      }
      r := Resume(schedules[id], actor, now);
      if r.Ok? {
        schedules := schedules[id := r.value];
      }
    }

    method RollbackById(id: ScheduleId, actor: string, reason: string, toStepIndex: Option<int>)
        returns (r: Result<Schedule, ErrorCode>)
      requires Valid()
      modifies this
      ensures Valid()
      ensures Abs() == Next(old(Abs()), RollbackCmd(id, actor, reason, toStepIndex))
      ensures r == if id in old(schedules) then Rollback(old(schedules)[id], actor, reason, toStepIndex)
              else Err(NotFound)
    {
      ReachableBasics(commands);
      commands := RunOne(commands, RollbackCmd(id, actor, reason, toStepIndex));
      if id !in schedules {
        return Err(NotFound);
      }
      r := Rollback(schedules[id], actor, reason, toStepIndex);
      if r.Ok? {
        schedules := schedules[id := r.value];
      }
    }
  }

  // ---------------------------------------------------------------- what every command keeps

  /** `key` is the key of schedule `s` for some tenant name that trims to the stored one. */
  ghost predicate KeyedBy(key: string, s: Schedule) {
    exists raw :: JsText.Trim(raw) == s.tenantId && key == Key(s.flag, raw, s.environment)
  }

  ghost predicate OrderOk(r: State) {
    && (forall id :: id in r.order <==> id in r.schedules)
    && (forall i, j :: 0 <= i < j < |r.order| ==> r.order[i] != r.order[j])
  }

  predicate Identified(r: State) {
    forall id :: id in r.schedules ==>
      && r.schedules[id].id == id && id.number < r.nextSeq
      && r.schedules[id].flag in FLAGS && r.schedules[id].environment in ENVIRONMENTS
  }

  ghost predicate Every(m: map<ScheduleId, Schedule>, ok: Schedule -> bool) {
    forall id :: id in m ==> ok(m[id])
  }

  ghost predicate SchedulesOk(r: State) {
    Identified(r) && Every(r.schedules, ScheduleOk)
  }

  /** Every key points to a schedule of that key, and each in-flight schedule is the one its
      key points to. */
  ghost predicate CurrentOk(r: State) {
    && (forall k :: k in r.current ==> r.current[k] in r.schedules && KeyedBy(k, r.schedules[r.current[k]]))
    && (forall k, l :: k in r.current && l in r.current && r.current[k] == r.current[l] ==> k == l)
    && (forall id :: id in r.schedules && InFlight(r.schedules[id]) ==> id in r.current.Values)
  }

  ghost predicate Inv(r: State) {
    OrderOk(r) && SchedulesOk(r) && CurrentOk(r)
  }

  /** The new value of a schedule keeps its identity and does not revive it. */
  predicate Continues(s: Schedule, t: Schedule) {
    && t.id == s.id && t.flag == s.flag && t.tenantId == s.tenantId && t.environment == s.environment
    && (InFlight(t) ==> InFlight(s))
  }

  /** Only the schedules change, and each keeps its identity. */
  predicate Updates(r: State, t: State) {
    && t.order == r.order && t.current == r.current && t.nextSeq == r.nextSeq
    && t.schedules.Keys == r.schedules.Keys
    && forall id :: id in r.schedules ==> Continues(r.schedules[id], t.schedules[id])
  }

  lemma UpdateKeepsIdentities(r: State, t: State)
    requires OrderOk(r) && Identified(r) && Updates(r, t)
    ensures OrderOk(t) && Identified(t)
  {
    forall id | id in t.schedules
      ensures Continues(r.schedules[id], t.schedules[id])
    {
      assert id in r.schedules;
    }
  }

  lemma UpdateKeepsCurrent(r: State, t: State)
    requires CurrentOk(r) && Updates(r, t)
    ensures CurrentOk(t)
  {
    forall k | k in t.current
      ensures t.current[k] in t.schedules && KeyedBy(k, t.schedules[t.current[k]])
    {
      var s := r.schedules[r.current[k]];
      assert Continues(s, t.schedules[t.current[k]]);
      var raw :| JsText.Trim(raw) == s.tenantId && k == Key(s.flag, raw, s.environment);
    }
    forall id | id in t.schedules && InFlight(t.schedules[id])
      ensures id in t.current.Values
    {
      assert Continues(r.schedules[id], t.schedules[id]);
    }
  }

  lemma PutUpdates(r: State, id: ScheduleId, t: Schedule)
    requires id in r.schedules && r.schedules[id].id == id && Continues(r.schedules[id], t)
    ensures Updates(r, Put(r, t))
  {
    assert Put(r, t).schedules == r.schedules[id := t];
  }

  lemma TickUpdates(r: State, now: int)
    ensures Updates(r, Next(r, TickCmd(now)))
  {
    forall id | id in r.schedules
      ensures Continues(r.schedules[id], Tick(r.schedules[id], now))
    {
      TickContinues(r.schedules[id], now);
    }
  }

  lemma TickContinues(s: Schedule, now: int)
    ensures Continues(s, Tick(s, now))
  {
    match s.status
    case Pending =>
    case Active =>
    case Paused =>
    case Completed =>
    case RolledBack =>
  }

  /** What a command other than `create` does to the one schedule it names. */
  function Outcome(s: Schedule, c: Command): Result<Schedule, ErrorCode>
    requires !c.CreateCmd? && !c.TickCmd?
  {
    match c
    case PauseCmd(_, actor, reason) => Pause(s, actor, reason)
    case ResumeCmd(_, actor, now) => Resume(s, actor, now)
    case RollbackCmd(_, actor, why, to) => Rollback(s, actor, why, to)
  }

  lemma OutcomeContinues(s: Schedule, c: Command)
    requires !c.CreateCmd? && !c.TickCmd? && Outcome(s, c).Ok?
    ensures Continues(s, Outcome(s, c).value)
  {
  }

  lemma OutcomeKeepsOk(s: Schedule, c: Command)
    requires !c.CreateCmd? && !c.TickCmd? && ScheduleOk(s) && Outcome(s, c).Ok?
    ensures ScheduleOk(Outcome(s, c).value)
  {
    match c
    case PauseCmd(_, actor, reason) => PauseKeepsOk(s, actor, reason);
    case ResumeCmd(_, actor, now) => ResumeKeepsOk(s, actor, now);
    case RollbackCmd(_, actor, why, to) => RollbackKeepsOk(s, actor, why, to);
  }

  lemma OthersUpdate(r: State, c: Command)
    requires Identified(r) && !c.CreateCmd?
    ensures Updates(r, Next(r, c))
  {
    if c.TickCmd? {
      TickUpdates(r, c.now);
    } else if c.id in r.schedules && Outcome(r.schedules[c.id], c).Ok? {
      OutcomeContinues(r.schedules[c.id], c);
      PutUpdates(r, c.id, Outcome(r.schedules[c.id], c).value);
    }
  }

  lemma PutKeepsEvery(r: State, id: ScheduleId, t: Schedule, ok: Schedule -> bool)
    requires Every(r.schedules, ok) && t.id == id && ok(t)
    ensures Every(Put(r, t).schedules, ok)
  {
  }

  lemma TickKeepsEvery(m: map<ScheduleId, Schedule>, now: int)
    requires Every(m, ScheduleOk)
    ensures Every(TickEach(m, now), ScheduleOk)
  {
    forall id | id in m
      ensures ScheduleOk(TickEach(m, now)[id])
    {
      TickKeepsOk(m[id], now);
    }
  }

  lemma OthersKeepOk(r: State, c: Command)
    requires SchedulesOk(r) && !c.CreateCmd?
    ensures Every(Next(r, c).schedules, ScheduleOk)
  {
    if c.TickCmd? {
      TickKeepsEvery(r.schedules, c.now);
    } else if c.id in r.schedules && Outcome(r.schedules[c.id], c).Ok? {
      var s := r.schedules[c.id];
      OutcomeKeepsOk(s, c);
      OutcomeContinues(s, c);
      PutKeepsEvery(r, c.id, Outcome(s, c).value, ScheduleOk);
    }
  }

  function Add(r: State, s: Schedule, key: string): State {
    State(r.schedules[s.id := s], r.order + [s.id], r.current[key := s.id], r.nextSeq + 1)
  }

  lemma AddKeepsCurrent(r: State, s: Schedule, key: string)
    requires CurrentOk(r) && s.id !in r.schedules && KeyedBy(key, s) && !Blocked(r, key)
    ensures CurrentOk(Add(r, s, key))
  {
    var t := Add(r, s, key);
    forall x | x in t.schedules && InFlight(t.schedules[x])
      ensures x in t.current.Values
    {
      if x == s.id {
        assert t.current[key] == x;
      } else {
        var k :| k in r.current && r.current[k] == x;
        assert t.current[k] == x;
      }
    }
  }

  lemma AddKeepsSchedules(r: State, s: Schedule, key: string)
    requires SchedulesOk(r) && s.id.number == r.nextSeq && ScheduleOk(s) && s.flag in FLAGS &&
             s.environment in ENVIRONMENTS
    ensures SchedulesOk(Add(r, s, key))
  {
  }

  lemma AddKeepsOrder(r: State, s: Schedule, key: string)
    requires OrderOk(r) && s.id !in r.schedules
    ensures OrderOk(Add(r, s, key))
  {
  }

  lemma AddKeepsInv(r: State, s: Schedule, key: string)
    requires Inv(r) && s.id.number == r.nextSeq && ScheduleOk(s) && s.flag in FLAGS && s.environment in ENVIRONMENTS
    requires KeyedBy(key, s) && !Blocked(r, key)
    ensures Inv(Add(r, s, key))
  {
    assert s.id !in r.schedules;
    AddKeepsOrder(r, s, key);
    AddKeepsSchedules(r, s, key);
    AddKeepsCurrent(r, s, key);
  }

  /** The schedule a successful `create` adds. */
  function CreatedSchedule(r: State, c: Command): Schedule
    requires c.CreateCmd?
  {
    NewSchedule(ScheduleId(r.nextSeq, c.suffix), c.input.flag, JsText.Trim(c.input.tenantId), c.input.environment,
        c.steps, JsText.Trim(c.input.actor))
  }

  lemma CreateAdds(r: State, c: Command)
    requires SchedulesOk(r) && c.CreateCmd? && Creates(r, c)
    ensures var s := CreatedSchedule(r, c);
            var key := Key(c.input.flag, c.input.tenantId, c.input.environment);
            && Next(r, c) == Add(r, s, key) && ScheduleOk(s) && KeyedBy(key, s)
            && s.id.number == r.nextSeq && s.flag in FLAGS && s.environment in ENVIRONMENTS
  {
    var s := CreatedSchedule(r, c);
    NewScheduleOk(s.id, c.input.flag, JsText.Trim(c.input.tenantId), c.input.environment, c.steps,
        JsText.Trim(c.input.actor));
    assert s.id !in r.schedules;
    assert JsText.Trim(c.input.tenantId) == s.tenantId;
  }

  lemma NextKeepsInv(r: State, c: Command)
    requires Inv(r)
    ensures Inv(Next(r, c))
  {
    if !c.CreateCmd? {
      OthersUpdate(r, c);
      OthersKeepOk(r, c);
      UpdateKeepsIdentities(r, Next(r, c));
      UpdateKeepsCurrent(r, Next(r, c));
    } else if Creates(r, c) {
      CreateAdds(r, c);
      AddKeepsInv(r, CreatedSchedule(r, c), Key(c.input.flag, c.input.tenantId, c.input.environment));
    }
  }

  /** In every reachable state all schedules and their histories are consistent, ids are
      unique, and each in-flight schedule is the one its creation key points to. */
  lemma {:induction false} ReachableStatesAreConsistent(cs: seq<Command>)
    ensures Inv(RunAll(Empty, cs))
  {
    if cs != [] {
      ReachableStatesAreConsistent(cs[..|cs| - 1]);
      NextKeepsInv(RunAll(Empty, cs[..|cs| - 1]), cs[|cs| - 1]);
    }
  }

  lemma ReachableBasics(cs: seq<Command>)
    ensures OrderOk(RunAll(Empty, cs))
    ensures forall id :: id in RunAll(Empty, cs).schedules ==> RunAll(Empty, cs).schedules[id].id == id
  {
    ReachableStatesAreConsistent(cs);
  }

  // ---------------------------------------------------------------- one schedule per tuple

  /** Keys and stored tuples agree. */
  predicate TenantsTrimmed(r: State) {
    forall k :: k in r.current && r.current[k] in r.schedules ==>
      var s := r.schedules[r.current[k]]; k == Key(s.flag, s.tenantId, s.environment)
  }

  predicate TrimmedCommand(c: Command) {
    c.CreateCmd? ==> JsText.Trimmed(c.input.tenantId)
  }

  lemma TrimmedKept(r: State, c: Command)
    requires Inv(r) && TenantsTrimmed(r) && TrimmedCommand(c)
    ensures TenantsTrimmed(Next(r, c))
  {
    if !c.CreateCmd? {
      OthersUpdate(r, c);
    } else if Creates(r, c) {
      JsText.TrimmedIffFixed(c.input.tenantId);
      CreateAdds(r, c);
      AddKeepsTrimmed(r, CreatedSchedule(r, c));
    }
  }

  lemma AddKeepsTrimmed(r: State, s: Schedule)
    requires Inv(r) && TenantsTrimmed(r) && s.id.number == r.nextSeq
    ensures TenantsTrimmed(Add(r, s, Key(s.flag, s.tenantId, s.environment)))
  {
    assert s.id !in r.schedules;
  }

  /** Both are in flight for the same (flag, tenant, environment). */
  predicate Collide(s: Schedule, t: Schedule) {
    InFlight(s) && InFlight(t) && s.flag == t.flag && s.tenantId == t.tenantId && s.environment == t.environment
  }

  /** No two schedules collide. */
  predicate OnlyInFlight(r: State) {
    forall x, y :: x in r.schedules && y in r.schedules && x != y ==> !Collide(r.schedules[x], r.schedules[y])
  }

  lemma {:induction false} TrimmedRun(cs: seq<Command>)
    requires forall c :: c in cs ==> TrimmedCommand(c)
    ensures Inv(RunAll(Empty, cs)) && TenantsTrimmed(RunAll(Empty, cs))
  {
    ReachableStatesAreConsistent(cs);
    if cs != [] {
      var before := cs[..|cs| - 1];
      TrimmedRun(before);
      TrimmedKept(RunAll(Empty, before), cs[|cs| - 1]);
    }
  }

  /** With trimmed tenant names there is at most one in-flight schedule per (flag, tenant,
      environment) in every reachable state, and look-up by that tuple finds it. */
  lemma OneInFlightPerTuple(cs: seq<Command>)
    requires forall c :: c in cs ==> TrimmedCommand(c)
    ensures var r := RunAll(Empty, cs);
            && OnlyInFlight(r)
            && forall id :: id in r.schedules && InFlight(r.schedules[id]) ==>
                 FindGoverningSchedule(r, r.schedules[id].flag, r.schedules[id].tenantId,
                     r.schedules[id].environment) == Some(r.schedules[id])
  {
    TrimmedRun(cs);
    var r := RunAll(Empty, cs);
    forall id | id in r.schedules && InFlight(r.schedules[id])
      ensures Key(r.schedules[id].flag, r.schedules[id].tenantId, r.schedules[id].environment) in r.current
      ensures r.current[Key(r.schedules[id].flag, r.schedules[id].tenantId, r.schedules[id].environment)] == id
    {
      var k :| k in r.current && r.current[k] == id;
    }
  }

  /** The key is built from the tenant name as given while the record stores it trimmed, so under
      any two spellings of a tenant name two schedules of the same tuple can be in flight together. */
  lemma TwoSpellingsSplit(flag: string, a: string, b: string, environment: string, steps: seq<Step>, raw: seq<RawStep>,
      actor: string)
    requires flag in FLAGS && environment in ENVIRONMENTS && ValidSteps(steps) && Parses(raw, steps)
    requires JsText.Trim(actor) != "" && a != b && JsText.Trim(a) == JsText.Trim(b) != ""
    ensures var create := (tenant: string) => CreateCmd(CreateInput(flag, tenant, environment, raw, actor), steps, "");
            !OnlyInFlight(RunAll(Empty, [create(a), create(b)]))
  {
    var c1 := CreateCmd(CreateInput(flag, a, environment, raw, actor), steps, "");
    var c2 := CreateCmd(CreateInput(flag, b, environment, raw, actor), steps, "");
    var k1, k2 := Key(flag, a, environment), Key(flag, b, environment);
    if k1 == k2 {
      KeyIsInjective(flag, a, environment, flag, b, environment);
      assert false;
    }
    assert [c1, c2][..1] == [c1] && [c1][..0] == [];
    assert Creates(Empty, c1);
    var r1 := Next(Empty, c1);
    assert RunAll(Empty, [c1]) == r1;
    assert Creates(r1, c2);
    var r2 := Next(r1, c2);
    assert RunAll(Empty, [c1, c2]) == r2;
    var x, y := ScheduleId(1, ""), ScheduleId(2, "");
    assert x in r2.schedules && y in r2.schedules && Collide(r2.schedules[x], r2.schedules[y]);
  }

  predicate UsesNames(c: Command, names: iset<string>) {
    c.CreateCmd? ==> c.input.tenantId in names
  }

  ghost predicate AllUseNames(cs: seq<Command>, names: iset<string>) {
    forall c :: c in cs ==> UsesNames(c, names)
  }

  /** No tenant goes by two of the names. */
  ghost predicate OneSpelling(names: iset<string>) {
    forall a, b :: a in names && b in names && JsText.Trim(a) == JsText.Trim(b) != "" ==> a == b
  }

  ghost predicate SpelledBy(raw: string, key: string, s: Schedule) {
    JsText.Trim(raw) == s.tenantId != "" && key == Key(s.flag, raw, s.environment)
  }

  /** Every key was built from one of the names. */
  ghost predicate KeysFrom(r: State, names: iset<string>) {
    forall k :: k in r.current && r.current[k] in r.schedules ==>
      exists raw :: raw in names && SpelledBy(raw, k, r.schedules[r.current[k]])
  }

  lemma UpdateKeepsNames(r: State, t: State, names: iset<string>)
    requires KeysFrom(r, names) && Updates(r, t)
    ensures KeysFrom(t, names)
  {
    forall k | k in t.current && t.current[k] in t.schedules
      ensures exists raw :: raw in names && SpelledBy(raw, k, t.schedules[t.current[k]])
    {
      var id := r.current[k];
      assert Continues(r.schedules[id], t.schedules[id]);
      var raw :| raw in names && SpelledBy(raw, k, r.schedules[id]);
      assert SpelledBy(raw, k, t.schedules[id]);
    }
  }

  lemma AddKeepsNames(r: State, s: Schedule, raw: string, names: iset<string>)
    requires CurrentOk(r) && KeysFrom(r, names) && s.id !in r.schedules && raw in names &&
             JsText.Trim(raw) == s.tenantId != ""
    ensures KeysFrom(Add(r, s, Key(s.flag, raw, s.environment)), names)
  {
    var key := Key(s.flag, raw, s.environment);
    var t := Add(r, s, key);
    assert SpelledBy(raw, key, s);
    forall k | k in t.current && t.current[k] in t.schedules
      ensures exists raw :: raw in names && SpelledBy(raw, k, t.schedules[t.current[k]])
    {
      if k != key {
        assert r.current[k] in r.schedules;
      }
    }
  }

  lemma NextKeepsNames(r: State, c: Command, names: iset<string>)
    requires Inv(r) && KeysFrom(r, names) && UsesNames(c, names)
    ensures KeysFrom(Next(r, c), names)
  {
    if !c.CreateCmd? {
      OthersUpdate(r, c);
      UpdateKeepsNames(r, Next(r, c), names);
    } else if Creates(r, c) {
      CreateAdds(r, c);
      AddKeepsNames(r, CreatedSchedule(r, c), c.input.tenantId, names);
    }
  }

  lemma {:induction false} RunKeepsNames(cs: seq<Command>, names: iset<string>)
    requires AllUseNames(cs, names)
    ensures Inv(RunAll(Empty, cs)) && KeysFrom(RunAll(Empty, cs), names)
  {
    ReachableStatesAreConsistent(cs);
    if cs != [] {
      var before := cs[..|cs| - 1];
      RunKeepsNames(before, names);
      NextKeepsNames(RunAll(Empty, before), cs[|cs| - 1], names);
    }
  }

  lemma OneSpellingCollidesNever(r: State, names: iset<string>, x: ScheduleId, y: ScheduleId)
    requires Inv(r) && KeysFrom(r, names) && OneSpelling(names)
    requires x in r.schedules && y in r.schedules && Collide(r.schedules[x], r.schedules[y])
    ensures x == y
  {
    var k :| k in r.current && r.current[k] == x;
    var l :| l in r.current && r.current[l] == y;
    var a :| a in names && SpelledBy(a, k, r.schedules[x]);
    var b :| b in names && SpelledBy(b, l, r.schedules[y]);
    assert a == b;
  }

  /** Callers that use the names in `names` never get two in-flight schedules for one (flag, tenant,
      environment), whatever they do, exactly when no tenant goes by two of the names. */
  lemma OneInFlightExactly(names: iset<string>)
    ensures (forall cs :: AllUseNames(cs, names) ==> OnlyInFlight(RunAll(Empty, cs))) <==> OneSpelling(names)
  {
    if OneSpelling(names) {
      forall cs | AllUseNames(cs, names)
        ensures OnlyInFlight(RunAll(Empty, cs))
      {
        OneSpellingStaysSingle(cs, names);
      }
    } else {
      var a, b :| a in names && b in names && JsText.Trim(a) == JsText.Trim(b) != "" && a != b;
      var cs := SplittingRun(a, b, names);
    }
  }

  lemma OneSpellingStaysSingle(cs: seq<Command>, names: iset<string>)
    requires AllUseNames(cs, names) && OneSpelling(names)
    ensures OnlyInFlight(RunAll(Empty, cs))
  {
    RunKeepsNames(cs, names);
    var r := RunAll(Empty, cs);
    forall x, y | x in r.schedules && y in r.schedules && Collide(r.schedules[x], r.schedules[y])
      ensures x == y
    {
      OneSpellingCollidesNever(r, names, x, y);
    }
  }

  lemma SplittingRun(a: string, b: string, names: iset<string>) returns (cs: seq<Command>)
    requires a in names && b in names && JsText.Trim(a) == JsText.Trim(b) != "" && a != b
    ensures AllUseNames(cs, names) && !OnlyInFlight(RunAll(Empty, cs))
  {
    var steps, raw := [Step(100, 0)], [RawStep(Some(100), Some(0))];
    JsText.TrimmedIffFixed("x");
    TwoSpellingsSplit("CHECKOUT", a, b, "production", steps, raw, "x");
    cs := [CreateCmd(CreateInput("CHECKOUT", a, "production", raw, "x"), steps, ""),
           CreateCmd(CreateInput("CHECKOUT", b, "production", raw, "x"), steps, "")];
  }

  // ---------------------------------------------------------------- look-up

  function Lookup(r: State, key: string): Option<Schedule> {
    if key in r.current && r.current[key] in r.schedules then Some(r.schedules[r.current[key]]) else None
  }

  /** A tenant's own schedule comes before the one for all tenants. */
  function FindGoverningSchedule(r: State, flag: string, tenantId: string, environment: string): Option<Schedule> {
    var own := Lookup(r, Key(flag, tenantId, environment));
    if own.Some? then own
    else if tenantId != ALL_TENANTS then Lookup(r, Key(flag, ALL_TENANTS, environment))
    else None
  }

  function GetRolloutPercentage(r: State, flag: string, tenantId: string, environment: string): int {
    match FindGoverningSchedule(r, flag, tenantId, environment)
    case Some(s) => s.percentage
    case None => 100
  }

  /** What evaluation sees in a reachable state: a percentage of an actual step of a schedule for
      this flag and environment and for this tenant or for all tenants; the unrestricted default
      applies only when neither key was ever used. */
  lemma GoverningScheduleFits(cs: seq<Command>, flag: string, tenantId: string, environment: string)
    requires forall c :: c in cs ==> TrimmedCommand(c)
    requires flag in FLAGS && environment in ENVIRONMENTS
    ensures var r := RunAll(Empty, cs);
            var g := FindGoverningSchedule(r, flag, tenantId, environment);
            && 0 <= GetRolloutPercentage(r, flag, tenantId, environment) <= 100
            && (g.Some? ==> && g.value.id in r.schedules && r.schedules[g.value.id] == g.value
                            && g.value.flag == flag && g.value.environment == environment
                            && g.value.tenantId in {tenantId, ALL_TENANTS})
            && (g.None? ==>
                  Key(flag, tenantId, environment) !in r.current && Key(flag, ALL_TENANTS, environment) !in r.current)
  {
    TrimmedRun(cs);
    var r := RunAll(Empty, cs);
    LookupFits(r, flag, tenantId, environment);
    LookupFits(r, flag, ALL_TENANTS, environment);
  }

  lemma LookupFits(r: State, flag: string, tenantId: string, environment: string)
    requires Inv(r) && TenantsTrimmed(r) && flag in FLAGS && environment in ENVIRONMENTS
    ensures var s := Lookup(r, Key(flag, tenantId, environment));
            && (s.None? <==> Key(flag, tenantId, environment) !in r.current)
            && (s.Some? ==> && s.value.id in r.schedules && r.schedules[s.value.id] == s.value && ScheduleOk(s.value)
                            && s.value.flag == flag && s.value.environment == environment &&
                                s.value.tenantId == tenantId
                            && 0 <= s.value.percentage <= 100)
  {
    var key := Key(flag, tenantId, environment);
    if key in r.current {
      var s := r.schedules[r.current[key]];
      KeyIsInjective(flag, tenantId, environment, s.flag, s.tenantId, s.environment);
    }
  }
}
