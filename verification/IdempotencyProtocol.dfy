/** The `Idempotency-Key` protocol of `src/middleware/idempotency.ts` as a state machine.

    Any number of requests share one storage key. Each request is a program counter that moves
    through GET, SET NX, the route handler and the fire-and-forget SET of the finished response;
    the steps of different requests interleave freely. Redis may also fail any command, apply a
    SET NX whose reply is lost, drop the final SET, or expire the entry. */
module IdempotencyProtocol {
  import opened Results

  type RequestId = nat

  datatype Reply = Reply(status: int, body: string)

  /** The value under the storage key. */
  datatype Record =
    | Processing(hash: string)
    | Completed(hash: string, reply: Reply)

  /** What the client of a request was told. */
  datatype Outcome =
    | Executed(reply: Reply)    // the handler ran for this request and called res.json
    | Replayed(reply: Reply)    // served from the stored record
    | InProgress
    | KeyMismatch
    | StoreError

  datatype Phase =
    | Arrived                   // about to GET
    | Missed                    // GET found nothing, about to SET NX
    | Running                   // holds the key, handler called
    | Answered(outcome: Outcome)

  datatype State = State(
    hashOf: map<RequestId, string>,
    phase: map<RequestId, Phase>,
    store: Option<Record>,
    unsaved: set<RequestId>,    // responses whose final SET has not reached the store
    runs: seq<RequestId>,       // handler calls, in order
    expiries: nat)

  const Initial := State(map[], map[], None, {}, [], 0)

  datatype Action =
    | Arrive(r: RequestId, hash: string)
    | Get(r: RequestId)
    | GetFails(r: RequestId)
    | SetNx(r: RequestId)
    | SetNxReplyLost(r: RequestId)
    | SetNxFails(r: RequestId)
    | Respond(r: RequestId, reply: Reply)
    | Save(r: RequestId)
    | SaveFails(r: RequestId)
    | Expire

  predicate At(s: State, r: RequestId, p: Phase) {
    r in s.hashOf && r in s.phase && s.phase[r] == p
  }

  predicate HasExecuted(s: State, r: RequestId) {
    r in s.hashOf && r in s.phase && s.phase[r].Answered? && s.phase[r].outcome.Executed?
  }

  predicate WasReplayed(s: State, q: RequestId) {
    q in s.hashOf && q in s.phase && s.phase[q].Answered? && s.phase[q].outcome.Replayed?
  }

  predicate Enabled(s: State, a: Action) {
    match a
    case Arrive(r, _) => r !in s.hashOf
    case Get(r) => At(s, r, Arrived)
    case GetFails(r) => At(s, r, Arrived)
    case SetNx(r) => At(s, r, Missed)
    case SetNxReplyLost(r) => At(s, r, Missed)
    case SetNxFails(r) => At(s, r, Missed)
    case Respond(r, _) => At(s, r, Running)
    case Save(r) => r in s.unsaved && HasExecuted(s, r)
    case SaveFails(r) => r in s.unsaved
    case Expire => s.store.Some?
  }

  /** The branch the middleware takes on what GET returned. */
  function AfterGet(store: Option<Record>, hash: string): Phase {
    match store
    case None => Missed
    case Some(Processing(_)) => Answered(InProgress)
    case Some(Completed(h, reply)) => if h != hash then Answered(KeyMismatch) else Answered(Replayed(reply))
  }

  function Goto(s: State, r: RequestId, p: Phase): State {
    s.(phase := s.phase[r := p])
  }

  function Next(s: State, a: Action): State
    requires Enabled(s, a)
  {
    match a
    case Arrive(r, hash) => Goto(s.(hashOf := s.hashOf[r := hash]), r, Arrived)
    case Get(r) => Goto(s, r, AfterGet(s.store, s.hashOf[r]))
    case GetFails(r) => Goto(s, r, Answered(StoreError))
    case SetNx(r) =>
      if s.store.None?
      then Goto(s.(store := Some(Processing(s.hashOf[r])), runs := s.runs + [r]), r, Running)
      else Goto(s, r, Answered(InProgress))
    case SetNxReplyLost(r) =>
      Goto(if s.store.None? then s.(store := Some(Processing(s.hashOf[r]))) else s, r, Answered(StoreError))
    case SetNxFails(r) => Goto(s, r, Answered(StoreError))
    case Respond(r, reply) => Goto(s.(unsaved := s.unsaved + {r}), r, Answered(Executed(reply)))
    case Save(r) => s.(store := Some(Completed(s.hashOf[r], s.phase[r].outcome.reply)), unsaved := s.unsaved - {r})
    case SaveFails(r) => s.(unsaved := s.unsaved - {r})
    case Expire => s.(store := None, expiries := s.expiries + 1)
  }

  // ---------------------------------------------------------------- runs

  /** `actions` is an interleaving that the protocol can perform from `s`. */
  ghost predicate CanRun(s: State, actions: seq<Action>)
    decreases |actions|
  {
    actions == [] || (Enabled(s, actions[0]) && CanRun(Next(s, actions[0]), actions[1..]))
  }

  ghost function Run(s: State, actions: seq<Action>): State
    requires CanRun(s, actions)
    decreases |actions|
  {
    if actions == [] then s else Run(Next(s, actions[0]), actions[1..])
  }

  // ---------------------------------------------------------------- what every step keeps

  /** Some request ran the handler for `hash` and was itself answered with `reply`. */
  ghost predicate ProducedBy(s: State, r: RequestId, hash: string, reply: Reply) {
    r in s.runs && At(s, r, Answered(Executed(reply))) && s.hashOf[r] == hash
  }

  ghost predicate Produced(s: State, hash: string, reply: Reply) {
    exists r :: ProducedBy(s, r, hash, reply)
  }

  ghost predicate RunsAreRunners(s: State) {
    && (forall i, j :: 0 <= i < j < |s.runs| ==> s.runs[i] != s.runs[j])
    && (forall r :: r in s.runs <==> At(s, r, Running) || HasExecuted(s, r))
  }

  ghost predicate RepliesAreProduced(s: State) {
    && (s.store.Some? && s.store.value.Completed? ==> Produced(s, s.store.value.hash, s.store.value.reply))
    && (forall q :: WasReplayed(s, q) ==>
          Produced(s, s.hashOf[q], s.phase[q].outcome.reply))
  }

  /** Handler calls are paid for: one by the entry in the store, the others by expiries. */
  predicate RunsBounded(s: State) {
    |s.runs| <= s.expiries + (if s.store.Some? then 1 else 0)
  }

  /** Without expiry nobody is left who could overwrite a finished entry. */
  predicate NoLateWriter(s: State) {
    s.expiries == 0 && s.store.Some? && s.store.value.Completed? ==>
      s.unsaved == {} && forall r :: r in s.runs ==> HasExecuted(s, r)
  }

  ghost predicate Inv(s: State) {
    && s.phase.Keys == s.hashOf.Keys
    && (forall r :: r in s.unsaved ==> HasExecuted(s, r))
    && RunsAreRunners(s)
    && RepliesAreProduced(s)
    && RunsBounded(s)
    && NoLateWriter(s)
  }

  /** No step takes back an answer that a handler produced. */
  lemma ProducedIsStable(s: State, a: Action, hash: string, reply: Reply)
    requires Inv(s) && Enabled(s, a) && Produced(s, hash, reply)
    ensures Produced(Next(s, a), hash, reply)
  {
    var r :| ProducedBy(s, r, hash, reply);
    assert ProducedBy(Next(s, a), r, hash, reply);
  }

  lemma RepliesStayProduced(s: State, a: Action)
    requires Inv(s) && Enabled(s, a)
    ensures RepliesAreProduced(Next(s, a))
  {
    var t := Next(s, a);
    if s.store.Some? && s.store.value.Completed? {
      ProducedIsStable(s, a, s.store.value.hash, s.store.value.reply);
    }
    if a.Save? {
      assert a.r in s.runs;
      assert ProducedBy(t, a.r, s.hashOf[a.r], s.phase[a.r].outcome.reply);
    }
    forall q | WasReplayed(t, q)
      ensures Produced(t, t.hashOf[q], t.phase[q].outcome.reply)
    {
      if WasReplayed(s, q) {
        ProducedIsStable(s, a, s.hashOf[q], s.phase[q].outcome.reply);
      }
    }
  }

  lemma RunnersStay(s: State, a: Action)
    requires Inv(s) && Enabled(s, a)
    ensures RunsAreRunners(Next(s, a))
  {
    var t := Next(s, a);
    forall r
      ensures r in t.runs <==> At(t, r, Running) || HasExecuted(t, r)
    {
      assert r in s.runs <==> At(s, r, Running) || HasExecuted(s, r);
    }
    if a.SetNx? {
      assert a.r !in s.runs;
    }
  }

  lemma WritersStayDone(s: State, a: Action)
    requires Inv(s) && Enabled(s, a)
    ensures NoLateWriter(Next(s, a))
  {
    var t := Next(s, a);
    if a.Save? && t.expiries == 0 {
      assert a.r in s.runs && |s.runs| == 1;
      forall r | r in s.unsaved || r in s.runs
        ensures r == a.r
      {
        assert r in s.runs;
      }
    }
  }

  lemma StepKeepsInv(s: State, a: Action)
    requires Inv(s) && Enabled(s, a)
    ensures Inv(Next(s, a))
  {
    RunnersStay(s, a);
    RepliesStayProduced(s, a);
    WritersStayDone(s, a);
  }

  lemma {:induction false} RunKeepsInv(s: State, actions: seq<Action>)
    requires Inv(s) && CanRun(s, actions)
    ensures Inv(Run(s, actions))
    decreases |actions|
  {
    if actions != [] {
      StepKeepsInv(s, actions[0]);
      RunKeepsInv(Next(s, actions[0]), actions[1..]);
    }
  }

  // ---------------------------------------------------------------- main results

  /** In every interleaving the handler runs at most once more often than the entry expired;
      a cached reply always equals the reply of a request that ran the handler with the same
      request hash. */
  lemma EveryRunIsSafe(actions: seq<Action>)
    requires CanRun(Initial, actions)
    ensures var s := Run(Initial, actions);
            && |s.runs| <= s.expiries + 1
            && forall q :: WasReplayed(s, q) ==> Produced(s, s.hashOf[q], s.phase[q].outcome.reply)
  {
    RunKeepsInv(Initial, actions);
  }

  /** `q` was served from the cache and one request ran the handler: it got exactly that request's status and body for
      the same request hash. */
  predicate ReplayOfTheRun(s: State, q: RequestId) {
    && |s.runs| == 1 && HasExecuted(s, s.runs[0])
    && At(s, q, Answered(Replayed(s.phase[s.runs[0]].outcome.reply)))
    && s.hashOf[s.runs[0]] == s.hashOf[q]
  }

  /** Within one lifetime of the entry: at most one handler call, and every cached reply carries
      that call's status and body and goes to a request with that call's hash. */
  lemma AtMostOnceWithoutExpiry(actions: seq<Action>)
    requires CanRun(Initial, actions)
    requires Run(Initial, actions).expiries == 0
    ensures |Run(Initial, actions).runs| <= 1
    ensures forall q :: WasReplayed(Run(Initial, actions), q) ==> ReplayOfTheRun(Run(Initial, actions), q)
  {
    RunKeepsInv(Initial, actions);
    var s := Run(Initial, actions);
    forall q | WasReplayed(s, q)
      ensures ReplayOfTheRun(s, q)
    {
      var r :| ProducedBy(s, r, s.hashOf[q], s.phase[q].outcome.reply);
      assert r == s.runs[0];
    }
  }

  /** The bound is exact: for every number of expiries some interleaving calls the handler once
      per expiry and once more. */
  lemma {:induction false} BoundIsReached(n: nat) returns (actions: seq<Action>)
    ensures CanRun(Initial, actions)
    ensures var s := Run(Initial, actions);
            && s.expiries == n && |s.runs| == n + 1 && s.store.Some?
            && forall r :: r in s.hashOf ==> r <= n
  {
    if n == 0 {
      actions := [Arrive(0, "h"), Get(0), SetNx(0)];
      OneMore(Initial, 0);
    } else {
      var before := BoundIsReached(n - 1);
      var s := Run(Initial, before);
      OneMore(Next(s, Expire), n);
      var more := [Expire] + [Arrive(n, "h"), Get(n), SetNx(n)];
      RunStep(s, Expire, [Arrive(n, "h"), Get(n), SetNx(n)]);
      RunConcat(Initial, before, more);
      actions := before + more;
    }
  }

  lemma OneMore(s: State, r: RequestId)
    requires s.store.None? && r !in s.hashOf
    ensures var more := [Arrive(r, "h"), Get(r), SetNx(r)];
            && CanRun(s, more)
            && var t := Run(s, more);
               t.expiries == s.expiries && t.runs == s.runs + [r] && t.store.Some? &&
                   t.hashOf.Keys == s.hashOf.Keys + {r}
  {
    var s1 := Next(s, Arrive(r, "h"));
    var s2 := Next(s1, Get(r));
    RunStep(s2, SetNx(r), []);
    RunStep(s1, Get(r), [SetNx(r)]);
    RunStep(s, Arrive(r, "h"), [Get(r), SetNx(r)]);
    assert [Get(r)] + [SetNx(r)] == [Get(r), SetNx(r)];
    assert [Arrive(r, "h")] + [Get(r), SetNx(r)] == [Arrive(r, "h"), Get(r), SetNx(r)];
  }

  lemma RunStep(s: State, a: Action, rest: seq<Action>)
    requires Enabled(s, a) && CanRun(Next(s, a), rest)
    ensures CanRun(s, [a] + rest) && Run(s, [a] + rest) == Run(Next(s, a), rest)
  {
    assert ([a] + rest)[1..] == rest;
  }

  lemma {:induction false} RunConcat(s: State, xs: seq<Action>, ys: seq<Action>)
    requires CanRun(s, xs) && CanRun(Run(s, xs), ys)
    ensures CanRun(s, xs + ys) && Run(s, xs + ys) == Run(Run(s, xs), ys)
    decreases |xs|
  {
    if xs == [] {
      assert xs + ys == ys;
    } else {
      assert (xs + ys)[1..] == xs[1..] + ys;
      RunConcat(Next(s, xs[0]), xs[1..], ys);
    }
  }

  /** The entry is finished, and each request outside `known` either has not asked yet or got
      the answer the entry calls for (or a store failure). */
  ghost predicate Settled(s: State, known: set<RequestId>, hash: string, reply: Reply) {
    && s.store == Some(Completed(hash, reply)) && s.expiries == 0
    && forall q :: q in s.hashOf && q !in known ==>
         || At(s, q, Arrived)
         || At(s, q, Answered(StoreError))
         || At(s, q, Answered(if s.hashOf[q] == hash then Replayed(reply) else KeyMismatch))
  }

  lemma StepKeepsSettled(s: State, a: Action, known: set<RequestId>, hash: string, reply: Reply)
    requires Inv(s) && Enabled(s, a) && a != Expire && Settled(s, known, hash, reply)
    ensures Settled(Next(s, a), known, hash, reply) && Next(s, a).runs == s.runs
  {
  }

  lemma {:induction false} ExpiriesGrow(s: State, actions: seq<Action>)
    requires CanRun(s, actions)
    ensures s.expiries <= Run(s, actions).expiries
    decreases |actions|
  {
    if actions != [] {
      ExpiriesGrow(Next(s, actions[0]), actions[1..]);
    }
  }

  /** Until it expires a finished entry never changes again: the handler is not called any more,
      every later request with the same hash gets that reply and every other one is refused. */
  lemma {:induction false} FinishedEntryIsFinal(s: State, actions: seq<Action>, known: set<RequestId>, hash: string,
      reply: Reply)
    requires Inv(s) && Settled(s, known, hash, reply)
    requires CanRun(s, actions) && Run(s, actions).expiries == 0
    ensures Settled(Run(s, actions), known, hash, reply) && Run(s, actions).runs == s.runs
    decreases |actions|
  {
    if actions != [] {
      var t := Next(s, actions[0]);
      ExpiriesGrow(t, actions[1..]);
      StepKeepsInv(s, actions[0]);
      StepKeepsSettled(s, actions[0], known, hash, reply);
      FinishedEntryIsFinal(t, actions[1..], known, hash, reply);
    }
  }

  /** Reaching a finished entry without expiry settles the key for all requests to come. */
  lemma FinishedSettles(actions: seq<Action>, hash: string, reply: Reply)
    requires CanRun(Initial, actions)
    requires Run(Initial, actions).expiries == 0 && Run(Initial, actions).store == Some(Completed(hash, reply))
    ensures var s := Run(Initial, actions); Inv(s) && Settled(s, s.hashOf.Keys, hash, reply)
  {
    RunKeepsInv(Initial, actions);
  }

  // ---------------------------------------------------------------- an entry nobody finishes

  /** The key is being processed, but no handler is running and no response is on its way. */
  ghost predicate Stuck(s: State) {
    s.store.Some? && s.store.value.Processing? && s.unsaved == {} && forall r :: !At(s, r, Running)
  }

  /** The entry and the handler calls are as before, and every new answer is a refusal. */
  ghost predicate Refusing(s: State, t: State) {
    && t.store == s.store && t.runs == s.runs
    && forall r :: r in t.phase && t.phase[r].Answered? ==>
         || (r in s.phase && s.phase[r] == t.phase[r])
         || t.phase[r].outcome in {InProgress, StoreError}
  }

  lemma StepStaysStuck(s: State, a: Action)
    requires Stuck(s) && Enabled(s, a) && a != Expire
    ensures Stuck(Next(s, a)) && Refusing(s, Next(s, a)) && Next(s, a).expiries == s.expiries
  {
    var t := Next(s, a);
    forall r
      ensures !At(t, r, Running)
    {
      assert !At(s, r, Running);
    }
  }

  /** Until the entry expires a stuck key refuses every request and never calls the handler again. */
  lemma {:induction false} StuckUntilExpiry(s: State, actions: seq<Action>)
    requires Stuck(s) && CanRun(s, actions) && Run(s, actions).expiries == s.expiries
    ensures Stuck(Run(s, actions)) && Refusing(s, Run(s, actions))
    decreases |actions|
  {
    if actions != [] {
      var t := Next(s, actions[0]);
      ExpiriesGrow(t, actions[1..]);
      StepStaysStuck(s, actions[0]);
      StuckUntilExpiry(t, actions[1..]);
    }
  }

  /** The entry can still be finished: a response can be saved, at the latest after the handler has
      called `res.json`. */
  lemma CanFinish(s: State) returns (actions: seq<Action>)
    requires Inv(s) && !Stuck(s) && s.store.Some? && s.store.value.Processing?
    ensures CanRun(s, actions) && Run(s, actions).expiries == s.expiries
    ensures Run(s, actions).store.Some? && Run(s, actions).store.value.Completed?
  {
    if s.unsaved != {} {
      var r :| r in s.unsaved;
      actions := [Save(r)] + [];
      RunStep(s, Save(r), []);
    } else {
      var r :| At(s, r, Running);
      var respond := Respond(r, Reply(200, ""));
      var t := Next(s, respond);
      RunStep(t, Save(r), []);
      RunStep(s, respond, [Save(r)] + []);
      actions := [respond] + ([Save(r)] + []);
    }
  }

  /** An entry under processing is bound to stay so until it expires exactly when it is stuck. */
  lemma StuckExactly(s: State)
    requires Inv(s) && s.store.Some? && s.store.value.Processing?
    ensures Stuck(s) <==>
            forall actions :: CanRun(s, actions) && Run(s, actions).expiries == s.expiries ==>
                Run(s, actions).store == s.store
  {
    if Stuck(s) {
      forall actions | CanRun(s, actions) && Run(s, actions).expiries == s.expiries
        ensures Run(s, actions).store == s.store
      {
        StuckUntilExpiry(s, actions);
      }
    } else {
      var actions := CanFinish(s);
    }
  }

  /** One way to get there: SET NX is applied and its reply is lost. */
  lemma LostReplySticks(r: RequestId, hash: string)
    ensures var actions := [Arrive(r, hash), Get(r), SetNxReplyLost(r)];
            CanRun(Initial, actions) && Stuck(Run(Initial, actions)) && Run(Initial, actions).runs == []
  {
    var s1 := Next(Initial, Arrive(r, hash));
    var s2 := Next(s1, Get(r));
    var rest := [SetNxReplyLost(r)];
    RunStep(s2, SetNxReplyLost(r), []);
    RunStep(s1, Get(r), rest);
    RunStep(Initial, Arrive(r, hash), [Get(r)] + rest);
    assert [Arrive(r, hash)] + ([Get(r)] + rest) == [Arrive(r, hash), Get(r), SetNxReplyLost(r)];
  }

  /** Another: the handler ran, and the final SET fails. */
  lemma FailedSaveSticks(r: RequestId, hash: string, reply: Reply)
    ensures var actions := [Arrive(r, hash), Get(r), SetNx(r), Respond(r, reply), SaveFails(r)];
            CanRun(Initial, actions) && Stuck(Run(Initial, actions)) && Run(Initial, actions).runs == [r]
  {
    var s1 := Next(Initial, Arrive(r, hash));
    var s2 := Next(s1, Get(r));
    var s3 := Next(s2, SetNx(r));
    var s4 := Next(s3, Respond(r, reply));
    var last := [SaveFails(r)];
    var end := [Respond(r, reply)] + last;
    var rest := [SetNx(r)] + end;
    RunStep(s4, SaveFails(r), []);
    RunStep(s3, Respond(r, reply), last);
    RunStep(s2, SetNx(r), end);
    RunStep(s1, Get(r), rest);
    RunStep(Initial, Arrive(r, hash), [Get(r)] + rest);
    assert [Arrive(r, hash)] + ([Get(r)] + rest) ==
           [Arrive(r, hash), Get(r), SetNx(r), Respond(r, reply), SaveFails(r)];
  }
}
