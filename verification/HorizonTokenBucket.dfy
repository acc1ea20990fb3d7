/** The rate-limit scheduler `HorizonTokenBucket` of `src/clients/horizon-contract-client.ts`. Requests
    are numbered by the caller; a released waiter is the number whose promise is resolved. */
module HorizonTokenBucket {
  import opened Results
  import opened Sequences

  type Id = nat

  /** -1 tokens means unknown; a reset time of 0 or less means unknown. */
  datatype State = State(remaining: int, resetAtMs: int, queue: seq<Id>, maxQueueDepth: int)

  datatype Outcome = Passed | Waiting | Rejected

  predicate Open(s: State) {
    s.remaining > 0 || s.remaining == -1
  }

  predicate ResetElapsed(s: State, now: int) {
    s.resetAtMs > 0 && now >= s.resetAtMs
  }

  function Spend(s: State): State {
    if s.remaining > 0 then s.(remaining := s.remaining - 1) else s
  }

  function OutcomeOf(s: State, now: int): Outcome {
    if Open(s) || ResetElapsed(s, now) then Passed
    else if |s.queue| >= s.maxQueueDepth then Rejected
    else Waiting
  }

  function Acquired(s: State, id: Id, now: int): State {
    if Open(s) then Spend(s)
    else match OutcomeOf(s, now)
      case Passed => s.(remaining := -1)
      case Waiting => s.(queue := s.queue + [id])
      case Rejected => s
  }

  /** How many waiters the tokens at hand let through. */
  function Released(s: State): nat {
    if s.remaining == -1 then |s.queue|
    else if s.remaining <= 0 then 0
    else if s.remaining < |s.queue| then s.remaining
    else |s.queue|
  }

  function Drained(s: State): State {
    s.(queue := s.queue[Released(s)..], remaining := if s.remaining == -1 then -1 else s.remaining - Released(s))
  }

  /** The headers applied, before any waiter is released. None stands for an absent header. */
  function WithHeaders(s: State, remaining: Option<int>, resetEpoch: Option<int>): State {
    s.(remaining := if remaining.Some? && remaining.value >= 0 then remaining.value else s.remaining,
       resetAtMs := if resetEpoch.Some? && resetEpoch.value > 0 then resetEpoch.value * 1000 else s.resetAtMs)
  }

  class TokenBucket {
    const maxQueueDepth: int
    var remaining: int
    var resetAtMs: int
    var queue: seq<Id>
    var draining: bool

    function Abs(): State
      reads this
    {
      State(remaining, resetAtMs, queue, maxQueueDepth)
    }

    constructor (initialCapacity: Option<int>, maxQueueDepth: Option<int>)
      ensures Abs() == Initial(initialCapacity, maxQueueDepth) && !draining
    {
      remaining := if initialCapacity.Some? then initialCapacity.value else 10;
      this.maxQueueDepth := if maxQueueDepth.Some? then maxQueueDepth.value else 200;
      resetAtMs, queue, draining := 0, [], false;
    }

    method Acquire(id: Id, now: int) returns (outcome: Outcome)
      modifies this
      ensures outcome == OutcomeOf(old(Abs()), now) && Abs() == Acquired(old(Abs()), id, now)
      ensures draining == old(draining)
    {
      if remaining > 0 || remaining == -1 {
        if remaining > 0 {
          remaining := remaining - 1;
        }
        return Passed;
      }
      if resetAtMs > 0 && now >= resetAtMs {
        remaining := -1;
        return Passed;
      }
      if |queue| >= maxQueueDepth {
        return Rejected;
      }
      queue := queue + [id];
      return Waiting;
    }

    method Update(remaining: Option<int>, resetEpoch: Option<int>) returns (released: seq<Id>)
      requires !draining
      modifies this
      ensures var s := WithHeaders(old(Abs()), remaining, resetEpoch);
              Abs() == Drained(s) && released == s.queue[..Released(s)]
      ensures !draining
    {
      if remaining.Some? && remaining.value >= 0 {
        this.remaining := remaining.value;
      }
      if resetEpoch.Some? && resetEpoch.value > 0 {
        resetAtMs := resetEpoch.value * 1000;
      }
      released := Drain();
    }

    /** How long a 429 holds the client back. */
    method BackoffDelay(retryAfterMs: Option<int>, now: int) returns (waitMs: int)
      ensures waitMs > 0
      ensures retryAfterMs.Some? && retryAfterMs.value > 0 ==> waitMs == retryAfterMs.value
      ensures (retryAfterMs.None? || retryAfterMs.value <= 0) && resetAtMs > now ==> now + waitMs == resetAtMs
      ensures (retryAfterMs.None? || retryAfterMs.value <= 0) && resetAtMs <= now ==> waitMs == 1000
    {
      waitMs := if retryAfterMs.Some? && retryAfterMs.value > 0 then retryAfterMs.value
                else if resetAtMs > now then resetAtMs - now
                else 1000;
    }

    /** What a backoff does once its delay is over. */
    method EndBackoff() returns (released: seq<Id>)
      requires !draining
      modifies this
      ensures Abs() == old(Abs()).(remaining := -1, queue := []) && released == old(queue)
      ensures !draining
    {
      remaining := -1;
      released := Drain();
    }

    method Drain() returns (released: seq<Id>)
      requires !draining
      modifies this
      ensures Abs() == Drained(old(Abs())) && released == old(queue)[..Released(old(Abs()))]
      ensures !draining
    {
      released := [];
      draining := true;
      while queue != [] && (remaining > 0 || remaining == -1)
        invariant draining && resetAtMs == old(resetAtMs)
        invariant |released| <= Released(old(Abs()))
        invariant released == old(queue)[..|released|] && queue == old(queue)[|released|..]
        invariant remaining == if old(remaining) == -1 then -1 else old(remaining) - |released|
        decreases |queue|
      {
        released := released + [queue[0]];
        queue := queue[1..];
        if remaining > 0 {
          remaining := remaining - 1;
        }
      }
      draining := false;
    }
  }

  // ---------------------------------------------------------------- runs

  function Initial(initialCapacity: Option<int>, maxQueueDepth: Option<int>): State {
    State(
      if initialCapacity.Some? then initialCapacity.value else 10,
      0,
      [],
      if maxQueueDepth.Some? then maxQueueDepth.value else 200)
  }

  datatype Op =
    | Acquire(id: Id, now: int)
    | Update(remaining: Option<int>, resetEpoch: Option<int>)
    | EndBackoff

  function Prepared(s: State, op: Op): State {
    match op
    case Acquire(_, _) => s
    case Update(remaining, resetEpoch) => WithHeaders(s, remaining, resetEpoch)
    case EndBackoff => s.(remaining := -1)
  }

  function Next(s: State, op: Op): State {
    if op.Acquire? then Acquired(s, op.id, op.now) else Drained(Prepared(s, op))
  }

  function Run(s: State, ops: seq<Op>): State {
    if ops == [] then s else Next(Run(s, ops[..|ops| - 1]), ops[|ops| - 1])
  }

  /** The waiters one step puts into the queue and takes out of it. */
  function Queued(s: State, op: Op): seq<Id> {
    if op.Acquire? && OutcomeOf(s, op.now) == Waiting then [op.id] else []
  }

  function Let(s: State, op: Op): seq<Id> {
    if op.Acquire? then [] else Prepared(s, op).queue[..Released(Prepared(s, op))]
  }

  /** All waiters queued during a run, and all released, in order. */
  function AllQueued(s: State, ops: seq<Op>): seq<Id> {
    if ops == [] then []
    else AllQueued(s, ops[..|ops| - 1]) + Queued(Run(s, ops[..|ops| - 1]), ops[|ops| - 1])
  }

  function AllReleased(s: State, ops: seq<Op>): seq<Id> {
    if ops == [] then []
    else AllReleased(s, ops[..|ops| - 1]) + Let(Run(s, ops[..|ops| - 1]), ops[|ops| - 1])
  }

  lemma StepIsFifo(s: State, op: Op)
    ensures Let(s, op) + Next(s, op).queue == s.queue + Queued(s, op)
  {
  }

  /** Waiters leave the queue in the order they entered it, each once. */
  lemma {:induction false} ReleasedInArrivalOrder(s: State, ops: seq<Op>)
    requires s.queue == []
    ensures AllQueued(s, ops) == AllReleased(s, ops) + Run(s, ops).queue
  {
    if ops != [] {
      var n := |ops| - 1;
      var mid := Run(s, ops[..n]);
      ReleasedInArrivalOrder(s, ops[..n]);
      StepIsFifo(mid, ops[n]);
      ConcatAssoc(AllReleased(s, ops[..n]), mid.queue, Queued(mid, ops[n]));
      ConcatAssoc(AllReleased(s, ops[..n]), Let(mid, ops[n]), Next(mid, ops[n]).queue);
    }
  }

  /** The queue never exceeds its limit. */
  lemma {:induction false} QueueStaysBounded(s: State, ops: seq<Op>)
    requires s.queue == []
    ensures Run(s, ops).maxQueueDepth == s.maxQueueDepth
    ensures Run(s, ops).queue == [] || |Run(s, ops).queue| <= s.maxQueueDepth
  {
    if ops != [] {
      QueueStaysBounded(s, ops[..|ops| - 1]);
    }
  }

  /** Reachable counts, from a capacity of at least -1: never below -1, and positive only with an
      empty queue. */
  lemma {:induction false} TokensStayKnownOrUnknown(s: State, ops: seq<Op>)
    requires s.queue == [] && s.remaining >= -1
    ensures Run(s, ops).remaining >= -1
    ensures Run(s, ops).remaining > 0 ==> Run(s, ops).queue == []
  {
    if ops != [] {
      TokensStayKnownOrUnknown(s, ops[..|ops| - 1]);
    }
  }

  predicate Settled(s: State) {
    s.queue == [] || s.remaining == 0
  }

  /** Every update and every backoff of every run leaves the queue empty or no token. */
  ghost predicate AlwaysSettles(s: State) {
    forall ops: seq<Op> :: ops != [] && !ops[|ops| - 1].Acquire? ==> Settled(Run(s, ops))
  }

  lemma {:induction false} NothingQueues(s: State, ops: seq<Op>)
    requires s.queue == [] && s.maxQueueDepth <= 0
    ensures Run(s, ops).queue == [] && Run(s, ops).maxQueueDepth == s.maxQueueDepth
  {
    if ops != [] {
      NothingQueues(s, ops[..|ops| - 1]);
    }
  }

  /** That holds exactly for capacities of at least -1, unless the queue admits nobody. */
  lemma SettlesExactlyFromMinusOne(initialCapacity: Option<int>, maxQueueDepth: Option<int>)
    ensures var s := Initial(initialCapacity, maxQueueDepth);
            AlwaysSettles(s) <==> s.remaining >= -1 || s.maxQueueDepth <= 0
  {
    var s := Initial(initialCapacity, maxQueueDepth);
    if s.maxQueueDepth <= 0 {
      forall ops: seq<Op> | ops != []
        ensures Settled(Run(s, ops))
      {
        NothingQueues(s, ops);
      }
    } else if s.remaining >= -1 {
      forall ops: seq<Op> | ops != [] && !ops[|ops| - 1].Acquire?
        ensures Settled(Run(s, ops))
      {
        TokensStayKnownOrUnknown(s, ops[..|ops| - 1]);
      }
    } else {
      var ops := [Acquire(0, 0), Update(None, None)];
      assert ops[..1] == [Acquire(0, 0)] && ops[..1][..0] == [];
      assert Run(s, []) == s;
      assert Run(s, ops[..1]) == Next(s, Acquire(0, 0));
      assert Run(s, ops) == Next(Run(s, ops[..1]), Update(None, None));
      assert !Settled(Run(s, ops));
    }
  }

  // ---------------------------------------------------------------- who lets waiters go

  /** A step takes waiters out of the queue exactly when it is an update or the end of a backoff that
      leaves tokens, or an unknown count, for somebody who waits. */
  lemma WaitersLeaveExactlyAtRelease(s: State, op: Op)
    ensures Let(s, op) != [] <==> !op.Acquire? && s.queue != [] && Open(Prepared(s, op))
    ensures op.Acquire? ==> s.queue <= Next(s, op).queue
  {
  }

  /** However many requests arrive and however much time passes, arrivals release nobody. */
  lemma {:induction false} ArrivalsReleaseNobody(s: State, ops: seq<Op>)
    requires forall i :: 0 <= i < |ops| ==> ops[i].Acquire?
    ensures s.queue <= Run(s, ops).queue && AllReleased(s, ops) == []
  {
    if ops != [] {
      ArrivalsReleaseNobody(s, ops[..|ops| - 1]);
      WaitersLeaveExactlyAtRelease(Run(s, ops[..|ops| - 1]), ops[|ops| - 1]);
    }
  }

  /** So a reset time that passes does not resolve the waiting requests: every newcomer after it
      passes and the queue stays as it is. */
  lemma {:induction false} ElapsedResetReleasesNobody(s: State, ops: seq<Op>)
    requires !Open(s) && s.resetAtMs > 0
    requires forall i :: 0 <= i < |ops| ==> ops[i].Acquire? && ops[i].now >= s.resetAtMs
    ensures Run(s, ops).queue == s.queue && Run(s, ops).resetAtMs == s.resetAtMs && AllPasses(s, ops) == |ops|
    ensures Run(s, ops).remaining == if ops == [] then s.remaining else -1
  {
    if ops != [] {
      ElapsedResetReleasesNobody(s, ops[..|ops| - 1]);
    }
  }

  // ---------------------------------------------------------------- one rate-limit window

  /** Nothing in this step refreshes the token count: no usable header, no backoff, no elapsed reset. */
  predicate SameWindow(s: State, op: Op) {
    match op
    case Acquire(_, now) => !ResetElapsed(s, now)
    case Update(remaining, _) => remaining.None? || remaining.value < 0
    case EndBackoff => false
  }

  predicate StaysInWindow(s: State, ops: seq<Op>) {
    ops == [] || (StaysInWindow(s, ops[..|ops| - 1]) && SameWindow(Run(s, ops[..|ops| - 1]), ops[|ops| - 1]))
  }

  /** How many requests one step lets through, at once or from the queue. */
  function Passes(s: State, op: Op): nat {
    if op.Acquire? then if OutcomeOf(s, op.now) == Passed then 1 else 0
    else |Let(s, op)|
  }

  function AllPasses(s: State, ops: seq<Op>): nat {
    if ops == [] then 0
    else AllPasses(s, ops[..|ops| - 1]) + Passes(Run(s, ops[..|ops| - 1]), ops[|ops| - 1])
  }

  /** Within a window every token pays for exactly one request. */
  lemma {:induction false} WindowConservesTokens(s: State, ops: seq<Op>)
    requires s.remaining >= 0 && StaysInWindow(s, ops)
    ensures Run(s, ops).remaining >= 0
    ensures AllPasses(s, ops) + Run(s, ops).remaining == s.remaining
  {
    if ops != [] {
      WindowConservesTokens(s, ops[..|ops| - 1]);
    }
  }

  /** After a header value r, at most r requests pass, waiters and newcomers together, before the
      count is refreshed. */
  lemma HeaderBoundsPasses(s: State, r: nat, resetEpoch: Option<int>, ops: seq<Op>)
    requires StaysInWindow(Next(s, Update(Some(r), resetEpoch)), ops)
    ensures Passes(s, Update(Some(r), resetEpoch)) + AllPasses(Next(s, Update(Some(r), resetEpoch)), ops) <= r
  {
    WindowConservesTokens(Next(s, Update(Some(r), resetEpoch)), ops);
  }

  /** A newcomer overtakes the queue only while the count is unknown or once the reset time has
      passed. */
  lemma OvertakesExactlyWhenUnknownOrReset(s: State, ops: seq<Op>, now: int)
    requires s.queue == [] && s.remaining >= -1 && Run(s, ops).queue != []
    ensures OutcomeOf(Run(s, ops), now) == Passed <==>
            Run(s, ops).remaining == -1 || ResetElapsed(Run(s, ops), now)
  {
    TokensStayKnownOrUnknown(s, ops);
  }
}
