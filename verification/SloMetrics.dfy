/** The error-budget windows of `src/metrics/sloMetrics.ts`: one-minute buckets, pruned beyond six
    hours, against the full log of recorded requests. Times are whole milliseconds. */
module SloMetrics {
  datatype Route = BookingIntent | SlotsList | Checkout | EscrowListener

  datatype Window = FiveMinutes | OneHour | SixHours

  function WindowMs(w: Window): int {
    match w
    case FiveMinutes => 5 * 60 * 1000
    case OneHour => 60 * 60 * 1000
    case SixHours => 6 * 60 * 60 * 1000
  }

  function Objective(route: Route): real {
    match route
    case BookingIntent => 0.999
    case SlotsList => 0.995
    case Checkout => 0.9999
    case EscrowListener => 0.99
  }

  const BUCKET_SIZE_MS := 60 * 1000

  datatype Bucket = Bucket(timestamp: int, total: nat, errors: nat)

  /** One recorded request. */
  datatype Event = Event(error: bool, now: int)

  function BucketTime(now: int): int {
    now / BUCKET_SIZE_MS * BUCKET_SIZE_MS
  }

  lemma BucketTimeBounds(now: int)
    ensures BucketTime(now) <= now < BucketTime(now) + BUCKET_SIZE_MS
    ensures BucketTime(now) % BUCKET_SIZE_MS == 0
  {
  }

  // ---------------------------------------------------------------- recording

  function Counted(b: Bucket, error: bool): Bucket {
    Bucket(b.timestamp, b.total + 1, b.errors + if error then 1 else 0)
  }

  /** The request goes to the last bucket if that is its minute, else to a new one. */
  function Added(buckets: seq<Bucket>, e: Event): seq<Bucket> {
    var t := BucketTime(e.now);
    if buckets != [] && buckets[|buckets| - 1].timestamp == t then
      buckets[..|buckets| - 1] + [Counted(buckets[|buckets| - 1], e.error)]
    else buckets + [Counted(Bucket(t, 0, 0), e.error)]
  }

  function Pruned(buckets: seq<Bucket>, cutoff: int): seq<Bucket> {
    if buckets != [] && buckets[0].timestamp < cutoff then Pruned(buckets[1..], cutoff) else buckets
  }

  function Recorded(buckets: seq<Bucket>, e: Event): seq<Bucket> {
    Pruned(Added(buckets, e), e.now - WindowMs(SixHours))
  }

  /** The buckets after a whole log of requests. */
  function Replay(log: seq<Event>): seq<Bucket> {
    if log == [] then [] else Recorded(Replay(log[..|log| - 1]), log[|log| - 1])
  }

  // ---------------------------------------------------------------- reading

  function Total(buckets: seq<Bucket>, cutoff: int): nat {
    if buckets == [] then 0
    else
      var b := buckets[|buckets| - 1];
      Total(buckets[..|buckets| - 1], cutoff) + if b.timestamp >= cutoff then b.total else 0
  }

  function Errors(buckets: seq<Bucket>, cutoff: int): nat {
    if buckets == [] then 0
    else
      var b := buckets[|buckets| - 1];
      Errors(buckets[..|buckets| - 1], cutoff) + if b.timestamp >= cutoff then b.errors else 0
  }

  /** The doubles from one half to one are the multiples of one over this number. */
  const PRECISION := 9007199254740992.0

  /** The double nearest to the objective; `1 - objective` is exact in doubles. */
  function DoubleObjective(route: Route): real {
    match route
    case BookingIntent => 8998192055486251.0 / PRECISION
    case SlotsList => 8962163258467287.0 / PRECISION
    case Checkout => 9006298534815518.0 / PRECISION
    case EscrowListener => 8917127262193582.0 / PRECISION
  }

  /** What rounding to the nearest double promises for numbers of the size that occurs here. */
  ghost predicate Rounds(round: real -> real) {
    && round(0.0) == 0.0
    && forall x :: 0.00000000000001 <= x <= 1000000.0 ==>
         PRECISION * x - x <= PRECISION * round(x) <= PRECISION * x + x
  }

  /** `errorRatio / errorBudget` in doubles. */
  function BurnRate(route: Route, total: nat, errors: nat, round: real -> real): real {
    if total == 0 then 0.0 else round(round(errors as real / total as real) / (1.0 - DoubleObjective(route)))
  }

  class RouteMetrics {
    const route: Route
    var buckets: seq<Bucket>
    ghost var log: seq<Event>

    ghost predicate Valid()
      reads this
    {
      buckets == Replay(log)
    }

    constructor (route: Route)
      ensures Valid() && log == [] && this.route == route
    {
      this.route, buckets, log := route, [], [];
    }

    method Record(error: bool, now: int)
      requires Valid()
      modifies this
      ensures Valid() && log == old(log) + [Event(error, now)]
    {
      var bucketTime := BucketTime(now);
      if buckets == [] || buckets[|buckets| - 1].timestamp != bucketTime {
        buckets := buckets + [Bucket(bucketTime, 0, 0)];
      }
      var current := buckets[|buckets| - 1];
      buckets := buckets[..|buckets| - 1] + [Counted(current, error)];
      assert buckets == Added(old(buckets), Event(error, now));
      Prune(now - WindowMs(SixHours));
      log := log + [Event(error, now)];
      assert log[..|log| - 1] == old(log);
    }

    method Prune(cutoff: int)
      modifies this`buckets
      ensures buckets == Pruned(old(buckets), cutoff)
    {
      while buckets != [] && buckets[0].timestamp < cutoff
        invariant Pruned(buckets, cutoff) == Pruned(old(buckets), cutoff)
        decreases |buckets|
      {
        buckets := buckets[1..];
      }
    }

    /** On a clock that does not go back, the rate is that of the full log in the window. It exceeds
        one exactly when the requests of the window miss the objective, or meet that of `checkout`
        without a request to spare. */
    method GetBurnRate(window: Window, now: int, round: real -> real) returns (rate: real)
      requires Valid()
      ensures var cutoff := now - WindowMs(window);
              rate == BurnRate(route, Total(buckets, cutoff), Errors(buckets, cutoff), round)
      ensures NonDecreasing(log) && (log != [] ==> log[|log| - 1].now <= now) ==>
                var cutoff := now - WindowMs(window);
                var total, errors := CountLog(log, cutoff, false), CountLog(log, cutoff, true);
                && rate == BurnRate(route, total, errors, round)
                && (Rounds(round) && total <= MOST_REQUESTS ==> (rate > 1.0 <==> Alarming(route, total, errors)))
    {
      var total, errors := SumSince(now - WindowMs(window));
      rate := BurnRate(route, total, errors, round);
      if NonDecreasing(log) && (log != [] ==> log[|log| - 1].now <= now) {
        BurnRateOfLog(route, log, window, now, round);
      }
    }

    method SumSince(cutoff: int) returns (total: nat, errors: nat)
      ensures total == Total(buckets, cutoff) && errors == Errors(buckets, cutoff)
    {
      total, errors := 0, 0;
      for i := 0 to |buckets|
        invariant total == Total(buckets[..i], cutoff) && errors == Errors(buckets[..i], cutoff)
      {
        assert buckets[..i + 1][..i] == buckets[..i];
        if buckets[i].timestamp >= cutoff {
          total := total + buckets[i].total;
          errors := errors + buckets[i].errors;
        }
      }
      assert buckets[..|buckets|] == buckets;
    }
  }

  // ---------------------------------------------------------------- the log behind the buckets

  /** How many requests of the log fall in buckets starting at or after the cutoff. */
  function CountLog(log: seq<Event>, cutoff: int, errorsOnly: bool): nat {
    if log == [] then 0
    else
      var e := log[|log| - 1];
      CountLog(log[..|log| - 1], cutoff, errorsOnly) +
          if BucketTime(e.now) >= cutoff && (errorsOnly ==> e.error) then 1 else 0
  }

  /** How many requests were made at or after `start`. */
  function CountFrom(log: seq<Event>, start: int, errorsOnly: bool): nat {
    if log == [] then 0
    else
      var e := log[|log| - 1];
      CountFrom(log[..|log| - 1], start, errorsOnly) + if e.now >= start && (errorsOnly ==> e.error) then 1 else 0
  }

  predicate NonDecreasing(log: seq<Event>) {
    forall i, j :: 0 <= i < j < |log| ==> log[i].now <= log[j].now
  }

  predicate Ascending(buckets: seq<Bucket>) {
    forall i, j :: 0 <= i < j < |buckets| ==> buckets[i].timestamp + BUCKET_SIZE_MS <= buckets[j].timestamp
  }

  /** Every bucket starts a minute and lies in the last six hours before `now`. */
  predicate Kept(buckets: seq<Bucket>, now: int) {
    forall i :: 0 <= i < |buckets| ==>
      && buckets[i].timestamp % BUCKET_SIZE_MS == 0
      && now - WindowMs(SixHours) <= buckets[i].timestamp <= now
  }

  lemma {:induction false} PrunedIsSuffix(buckets: seq<Bucket>, cutoff: int)
    ensures exists k :: 0 <= k <= |buckets| && Pruned(buckets, cutoff) == buckets[k..]
    ensures Ascending(buckets) ==> forall i :: 0 <= i < |Pruned(buckets, cutoff)| ==>
            Pruned(buckets, cutoff)[i].timestamp >= cutoff
  {
    if buckets != [] && buckets[0].timestamp < cutoff {
      PrunedIsSuffix(buckets[1..], cutoff);
      var k :| 0 <= k <= |buckets[1..]| && Pruned(buckets[1..], cutoff) == buckets[1..][k..];
      assert buckets[1..][k..] == buckets[k + 1..];
    } else {
      assert buckets == buckets[0..];
    }
  }

  lemma {:induction false} DropFirst(buckets: seq<Bucket>, cutoff: int)
    requires buckets != []
    ensures Total(buckets, cutoff) == Total(buckets[1..], cutoff) +
            if buckets[0].timestamp >= cutoff then buckets[0].total else 0
    ensures Errors(buckets, cutoff) == Errors(buckets[1..], cutoff) +
            if buckets[0].timestamp >= cutoff then buckets[0].errors else 0
  {
    var n := |buckets| - 1;
    if n > 0 {
      DropFirst(buckets[..n], cutoff);
      assert buckets[..n][1..] == buckets[1..][..n - 1];
    }
  }

  /** Pruning removes nothing that a later cutoff would count. */
  lemma {:induction false} PruningIsInvisible(buckets: seq<Bucket>, pruned: int, cutoff: int)
    requires pruned <= cutoff
    ensures Total(Pruned(buckets, pruned), cutoff) == Total(buckets, cutoff)
    ensures Errors(Pruned(buckets, pruned), cutoff) == Errors(buckets, cutoff)
  {
    if buckets != [] && buckets[0].timestamp < pruned {
      PruningIsInvisible(buckets[1..], pruned, cutoff);
      DropFirst(buckets, cutoff);
    }
  }

  lemma AddedCounts(buckets: seq<Bucket>, e: Event, cutoff: int)
    ensures Total(Added(buckets, e), cutoff) == Total(buckets, cutoff) + if BucketTime(e.now) >= cutoff then 1 else 0
    ensures Errors(Added(buckets, e), cutoff) == Errors(buckets, cutoff) +
            if BucketTime(e.now) >= cutoff && e.error then 1 else 0
  {
    var added := Added(buckets, e);
    if buckets != [] && buckets[|buckets| - 1].timestamp == BucketTime(e.now) {
      assert added[..|added| - 1] == buckets[..|buckets| - 1];
    } else {
      assert added[..|added| - 1] == buckets;
    }
  }

  lemma AddedKeepsShape(buckets: seq<Bucket>, e: Event, before: int)
    requires Ascending(buckets) && Kept(buckets, before) && before <= e.now
    ensures Ascending(Added(buckets, e))
    ensures forall i :: 0 <= i < |Added(buckets, e)| ==>
              Added(buckets, e)[i].timestamp % BUCKET_SIZE_MS == 0 && Added(buckets, e)[i].timestamp <= e.now
  {
    BucketTimeBounds(e.now);
    var n := |buckets| - 1;
    if buckets != [] && buckets[n].timestamp != BucketTime(e.now) {
      assert buckets[n].timestamp <= e.now;
      MinutesApart(buckets[n].timestamp, e.now);
      forall i | 0 <= i < |buckets|
        ensures buckets[i].timestamp + BUCKET_SIZE_MS <= BucketTime(e.now)
      {
        assert buckets[i].timestamp <= buckets[n].timestamp;
      }
    }
  }

  lemma MinutesApart(t: int, now: int)
    requires t % BUCKET_SIZE_MS == 0 && t <= now && t != BucketTime(now)
    ensures t + BUCKET_SIZE_MS <= BucketTime(now)
  {
  }

  /** The shape of the buckets after any log with a non-decreasing clock. */
  lemma {:induction false} ReplayKeepsShape(log: seq<Event>)
    requires NonDecreasing(log) && log != []
    ensures Ascending(Replay(log)) && Kept(Replay(log), log[|log| - 1].now)
  {
    var n := |log| - 1;
    var e := log[n];
    if n > 0 {
      ReplayKeepsShape(log[..n]);
      AddedKeepsShape(Replay(log[..n]), e, log[n - 1].now);
    } else {
      AddedKeepsShape([], e, e.now);
      assert log[..n] == [];
    }
    PrunedKeepsShape(Added(Replay(log[..n]), e), e.now);
  }

  lemma PrunedKeepsShape(added: seq<Bucket>, now: int)
    requires Ascending(added)
    requires forall i :: 0 <= i < |added| ==> added[i].timestamp % BUCKET_SIZE_MS == 0 && added[i].timestamp <= now
    ensures Ascending(Pruned(added, now - WindowMs(SixHours))) && Kept(Pruned(added, now - WindowMs(SixHours)), now)
  {
    PrunedIsSuffix(added, now - WindowMs(SixHours));
  }

  /** For every window and every reading time from the last request on, the pruned buckets give the
      counts of the full log. */
  lemma {:induction false} PrunedCountsAreExact(log: seq<Event>, cutoff: int)
    requires NonDecreasing(log)
    requires log != [] ==> cutoff >= log[|log| - 1].now - WindowMs(SixHours)
    ensures Total(Replay(log), cutoff) == CountLog(log, cutoff, false)
    ensures Errors(Replay(log), cutoff) == CountLog(log, cutoff, true)
  {
    if log != [] {
      var n := |log| - 1;
      PrunedCountsAreExact(log[..n], cutoff);
      AddedCounts(Replay(log[..n]), log[n], cutoff);
      PruningIsInvisible(Added(Replay(log[..n]), log[n]), log[n].now - WindowMs(SixHours), cutoff);
    }
  }

  /** The bucketed window lies between the exact window and the one a bucket shorter, and is exact
      when the cutoff starts a minute. */
  lemma {:induction false} WindowIsExactToOneBucket(log: seq<Event>, cutoff: int, errorsOnly: bool)
    ensures CountFrom(log, cutoff + BUCKET_SIZE_MS - 1, errorsOnly) <= CountLog(log, cutoff, errorsOnly) <=
            CountFrom(log, cutoff, errorsOnly)
    ensures cutoff % BUCKET_SIZE_MS == 0 ==> CountLog(log, cutoff, errorsOnly) == CountFrom(log, cutoff, errorsOnly)
  {
    if log != [] {
      var n := |log| - 1;
      WindowIsExactToOneBucket(log[..n], cutoff, errorsOnly);
      BucketTimeBounds(log[n].now);
      AlignedCutoff(log[n].now, cutoff);
    }
  }

  lemma AlignedCutoff(now: int, cutoff: int)
    ensures cutoff % BUCKET_SIZE_MS == 0 && now >= cutoff ==> BucketTime(now) >= cutoff
  {
  }

  lemma {:induction false} Spread(buckets: seq<Bucket>, i: nat)
    requires Ascending(buckets) && i < |buckets|
    ensures buckets[0].timestamp + i * BUCKET_SIZE_MS <= buckets[i].timestamp
  {
    if i > 0 {
      Spread(buckets, i - 1);
    }
  }

  /** At most 361 buckets are ever held, and that many only right at the start of a minute. */
  lemma AtMost361Buckets(log: seq<Event>)
    requires NonDecreasing(log)
    ensures |Replay(log)| <= 361
    ensures |Replay(log)| == 361 ==> log[|log| - 1].now % BUCKET_SIZE_MS == 0
  {
    var buckets := Replay(log);
    if log != [] && buckets != [] {
      ReplayKeepsShape(log);
      Spread(buckets, |buckets| - 1);
    }
  }

  // ---------------------------------------------------------------- what a rate above one means

  /** Beyond this many requests the doubles may be too coarse. */
  const MOST_REQUESTS := 1_000_000_000_000

  /** Too few of the requests succeeded. */
  predicate ObjectiveMissed(route: Route, total: nat, errors: nat) {
    total as real - errors as real < Objective(route) * total as real
  }

  /** One more failure would have been too many. */
  predicate JustMet(route: Route, total: nat, errors: nat) {
    total > 0 && total as real - errors as real == Objective(route) * total as real
  }

  predicate Alarming(route: Route, total: nat, errors: nat) {
    ObjectiveMissed(route, total, errors) || (route == Checkout && JustMet(route, total, errors))
  }

  /** What the buckets report after any log with a non-decreasing clock, in terms of the log. */
  lemma BurnRateOfLog(route: Route, log: seq<Event>, window: Window, now: int, round: real -> real)
    requires NonDecreasing(log) && (log != [] ==> log[|log| - 1].now <= now)
    ensures var cutoff := now - WindowMs(window);
            var total, errors := CountLog(log, cutoff, false), CountLog(log, cutoff, true);
            var rate := BurnRate(route, Total(Replay(log), cutoff), Errors(Replay(log), cutoff), round);
            && rate == BurnRate(route, total, errors, round)
            && (Rounds(round) && total <= MOST_REQUESTS ==> (rate > 1.0 <==> Alarming(route, total, errors)))
  {
    var cutoff := now - WindowMs(window);
    var total, errors := CountLog(log, cutoff, false), CountLog(log, cutoff, true);
    PrunedCountsAreExact(log, cutoff);
    ErrorsAreRequests(log, cutoff);
    if Rounds(round) && total <= MOST_REQUESTS {
      AboveOneExactly(route, total, errors, round);
    }
  }

  lemma {:induction false} ErrorsAreRequests(log: seq<Event>, cutoff: int)
    ensures CountLog(log, cutoff, true) <= CountLog(log, cutoff, false)
  {
    if log != [] {
      ErrorsAreRequests(log[..|log| - 1], cutoff);
    }
  }

  /** One request in so many may fail. */
  function OneIn(route: Route): int {
    match route
    case BookingIntent => 1000
    case SlotsList => 200
    case Checkout => 10000
    case EscrowListener => 100
  }

  /** In doubles the budget of `checkout` comes out a little too small and the others a little too large. */
  lemma BudgetInDoubles(route: Route)
    ensures OneIn(route) as real * (1.0 - Objective(route)) == 1.0
    ensures OneIn(route) as real * (1.0 - DoubleObjective(route)) * PRECISION == ScaledBudget(route)
  {
  }

  lemma MissedInRequests(route: Route, total: nat, errors: nat)
    ensures ObjectiveMissed(route, total, errors) <==> OneIn(route) * errors > total
    ensures JustMet(route, total, errors) <==> total > 0 && OneIn(route) * errors == total
  {
  }

  lemma Product(x: real, y: real, k: real)
    requires x <= y && k >= 0.0
    ensures x * k <= y * k
  {
    assert (y - x) * k == y * k - x * k;
  }

  lemma Above(x: real, y: real, k: real)
    requires k > 0.0 && x * k <= y * k
    ensures x <= y
  {
    assert (x - y) * k <= 0.0;
  }

  lemma QuotientWithin(q: real, d: real, low: real, high: real)
    requires d > 0.0 && low * d <= q <= high * d
    ensures q / d * d == q && low <= q / d <= high
  {
    var y := q / d;
    assert y * d == q;
    Above(low, y, d);
    Above(y, high, d);
  }

  /** Rounding the ratio `q` and then the rate `y` changes the rate by about one part in 2 to the power of 52. */
  lemma TwoRoundings(p: real, ratio: real, q: real, y: real, rate: real, budget: real)
    requires p > 1.0 && budget > 0.0 && y * budget == q
    requires p * ratio - ratio <= p * q <= p * ratio + ratio && p * y - y <= p * rate <= p * y + y
    ensures (p - 1.0) * ((p - 1.0) * ratio) <= p * (p * (rate * budget)) <= (p + 1.0) * ((p + 1.0) * ratio)
  {
    Product(p * y - y, p * rate, budget);
    Product(p * rate, p * y + y, budget);
    assert (p * y - y) * budget == (p - 1.0) * q && (p * y + y) * budget == (p + 1.0) * q;
    assert p * rate * budget == p * (rate * budget);
    Product((p - 1.0) * q, p * (rate * budget), p);
    Product(p * (rate * budget), (p + 1.0) * q, p);
    Product(p * ratio - ratio, p * q, p - 1.0);
    Product(p * q, p * ratio + ratio, p + 1.0);
  }

  lemma RateWithin(ratio: real, budget: real, round: real -> real)
    requires Rounds(round) && 0.000000000001 <= ratio <= 1.0 && 0.00001 <= budget <= 1.0
    ensures Near(ratio, round(round(ratio) / budget), budget)
  {
    var q := round(ratio);
    QuotientWithin(q, budget, 0.00000000000001, 1000000.0);
    TwoRoundings(PRECISION, ratio, q, q / budget, round(q / budget), budget);
  }

  ghost predicate Near(ratio: real, rate: real, budget: real) {
    (PRECISION - 1.0) * ((PRECISION - 1.0) * ratio) <= PRECISION * (PRECISION * (rate * budget)) <=
        (PRECISION + 1.0) * ((PRECISION + 1.0) * ratio)
  }

  /** The same bounds for `n * e` in place of `ratio == e / t`. */
  lemma Rescale(p: real, ratio: real, rate: real, budget: real, n: real, t: real, e: real, whole: real)
    requires (p - 1.0) * ((p - 1.0) * ratio) <= p * (p * (rate * budget)) <= (p + 1.0) * ((p + 1.0) * ratio)
    requires n > 0.0 && t > 0.0 && ratio * t == e && p * (n * budget * p * t) == whole
    ensures (p - 1.0) * ((p - 1.0) * (n * e)) <= rate * whole <= (p + 1.0) * ((p + 1.0) * (n * e))
  {
    var scaled := p * (p * (rate * budget));
    Product((p - 1.0) * ((p - 1.0) * ratio), scaled, n * t);
    Product(scaled, (p + 1.0) * ((p + 1.0) * ratio), n * t);
    ScaleRatio(p - 1.0, ratio, n, t);
    ScaleRatio(p + 1.0, ratio, n, t);
    ScaleRate(p, rate, budget, n, t);
  }

  lemma ScaleRatio(c: real, ratio: real, n: real, t: real)
    ensures c * (c * ratio) * (n * t) == c * (c * (n * (ratio * t)))
  {
  }

  lemma ScaleRate(p: real, rate: real, budget: real, n: real, t: real)
    ensures p * (p * (rate * budget)) * (n * t) == rate * (p * (n * budget * p * t))
  {
  }

  /** A rate within the bounds is above one exactly when the bounds say so. */
  lemma CloseEnough(p: real, ratio: real, rate: real, budget: real, n: real, t: real, e: real, whole: real, alarm: bool)
    requires (p - 1.0) * ((p - 1.0) * ratio) <= p * (p * (rate * budget)) <= (p + 1.0) * ((p + 1.0) * ratio)
    requires n > 0.0 && t > 0.0 && ratio * t == e && p * (n * budget * p * t) == whole > 0.0
    requires if alarm then (p - 1.0) * ((p - 1.0) * (n * e)) > whole else (p + 1.0) * ((p + 1.0) * (n * e)) <= whole
    ensures rate > 1.0 <==> alarm
  {
    Rescale(p, ratio, rate, budget, n, t, e, whole);
    Decide(rate, whole, (p - 1.0) * ((p - 1.0) * (n * e)), (p + 1.0) * ((p + 1.0) * (n * e)), alarm);
  }

  lemma Decide(rate: real, budget: real, low: real, high: real, alarm: bool)
    requires budget > 0.0 && low <= rate * budget <= high
    requires if alarm then low > budget else high <= budget
    ensures rate > 1.0 <==> alarm
  {
    if rate <= 1.0 {
      Product(rate, 1.0, budget);
    } else {
      assert (rate - 1.0) * budget > 0.0;
    }
  }

  /** The budget in doubles for `OneIn(route)` requests, scaled up. */
  function ScaledBudget(route: Route): real {
    PRECISION + if route == Checkout then -992.0 else 8.0
  }

  /** Neither rounding nor the doubles for the objectives bridge the distance of one request. */
  lemma BudgetSpent(route: Route, total: nat, errors: nat)
    requires 0 < total <= MOST_REQUESTS
    ensures PRECISION * (ScaledBudget(route) * total as real) > 0.0
    ensures var allowed, budget := OneIn(route) as real * errors as real,
            PRECISION * (ScaledBudget(route) * total as real);
            if Alarming(route, total, errors)
            then (PRECISION - 1.0) * ((PRECISION - 1.0) * allowed) > budget
            else (PRECISION + 1.0) * ((PRECISION + 1.0) * allowed) <= budget
  {
    MissedInRequests(route, total, errors);
    var t, a := total as real, (OneIn(route) * errors) as real;
    assert a == OneIn(route) as real * errors as real;
    if a > t {
      Missed(t, a);
    } else if a < t {
      Met(t, a);
    }
  }

  lemma Missed(t: real, a: real)
    requires a >= t + 1.0 && 0.0 < t <= 1000000000000.0
    ensures (PRECISION - 1.0) * ((PRECISION - 1.0) * a) > PRECISION * ((PRECISION + 8.0) * t) >
            PRECISION * ((PRECISION - 992.0) * t)
  {
  }

  lemma Met(t: real, a: real)
    requires a <= t - 1.0 && 0.0 < t <= 1000000000000.0
    ensures (PRECISION + 1.0) * ((PRECISION + 1.0) * a) < PRECISION * ((PRECISION - 992.0) * t) <
            PRECISION * ((PRECISION + 8.0) * t)
  {
  }

  /** The exact meaning of a burn rate above one. */
  lemma AboveOneExactly(route: Route, total: nat, errors: nat, round: real -> real)
    requires errors <= total <= MOST_REQUESTS && Rounds(round)
    ensures BurnRate(route, total, errors, round) > 1.0 <==> Alarming(route, total, errors)
  {
    if errors == 0 {
      MissedInRequests(route, total, errors);
    } else {
      RatioOfCounts(total, errors);
      AboveOneWithErrors(route, total, errors, errors as real / total as real, 1.0 - DoubleObjective(route), round);
    }
  }

  lemma AboveOneWithErrors(route: Route, total: nat, errors: nat, ratio: real, budget: real, round: real -> real)
    requires 0 < total <= MOST_REQUESTS && ratio * total as real == errors as real && 0.000000000001 <= ratio <= 1.0
    requires Rounds(round) && budget == 1.0 - DoubleObjective(route)
    ensures round(round(ratio) / budget) > 1.0 <==> Alarming(route, total, errors)
  {
    RateWithin(ratio, budget, round);
    Verdict(route, total, errors, ratio, budget, round(round(ratio) / budget));
  }

  /** The objective of `checkout` is met, and the rate is above one all the same. */
  lemma CheckoutAlarmsWhenMet(errors: nat, round: real -> real)
    requires 0 < errors && 10000 * errors <= MOST_REQUESTS && Rounds(round)
    ensures !ObjectiveMissed(Checkout, 10000 * errors, errors) &&
            BurnRate(Checkout, 10000 * errors, errors, round) > 1.0
  {
    MissedInRequests(Checkout, 10000 * errors, errors);
    AboveOneExactly(Checkout, 10000 * errors, errors, round);
  }

  lemma RatioOfCounts(total: nat, errors: nat)
    requires 0 < errors <= total <= MOST_REQUESTS
    ensures var ratio := errors as real / total as real;
            ratio * total as real == errors as real && 0.000000000001 <= ratio <= 1.0
  {
    QuotientWithin(errors as real, total as real, 0.000000000001, 1.0);
  }

  lemma Verdict(route: Route, total: nat, errors: nat, ratio: real, budget: real, rate: real)
    requires 0 < total <= MOST_REQUESTS && ratio * total as real == errors as real &&
             budget == 1.0 - DoubleObjective(route)
    requires Near(ratio, rate, budget)
    ensures rate > 1.0 <==> Alarming(route, total, errors)
  {
    BudgetInDoubles(route);
    BudgetSpent(route, total, errors);
    CloseEnough(PRECISION, ratio, rate, budget, OneIn(route) as real, total as real, errors as real,
                PRECISION * (ScaledBudget(route) * total as real), Alarming(route, total, errors));
  }
}
