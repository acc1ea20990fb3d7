/** Host failover of `src/clients/horizon-host-manager.ts`: hosts are quarantined after a burst of
    errors and readmitted after a successful probe or request. Probing is atomic here. */
module HorizonHosts {
  import opened Results

  const QUARANTINE_COOLDOWN_MS := 15000
  const ERROR_WINDOW_MS := 10000
  const MAX_ERRORS := 3

  datatype Host = Host(
    url: string,
    isPrimary: bool,
    isQuarantined: bool,
    quarantinedAt: int,
    errorTimestamps: seq<int>,
    lastSuccessAt: int)

  /** `status` is the HTTP status if the error carries one. */
  datatype Error = Error(status: Option<int>, retriable: bool)

  predicate IsHttpClientError(e: Error) {
    e.status.Some? && 400 <= e.status.value < 500 && e.status.value != 429
  }

  predicate Countable(e: Error) {
    !IsHttpClientError(e) && e.retriable
  }

  function StripSlash(url: string): string {
    if url != "" && url[|url| - 1] == '/' then url[..|url| - 1] else url
  }

  function Fresh(urls: seq<string>): seq<Host> {
    seq(|urls|, i requires 0 <= i < |urls| => Host(StripSlash(urls[i]), i == 0, false, 0, [], 0))
  }

  // ---------------------------------------------------------------- one host

  function Recent(times: seq<int>, now: int): seq<int> {
    if times == [] then []
    else
      var t := times[|times| - 1];
      Recent(times[..|times| - 1], now) + if now - t <= ERROR_WINDOW_MS then [t] else []
  }

  function Struck(h: Host, now: int): Host {
    var times := Recent(h.errorTimestamps + [now], now);
    if |times| >= MAX_ERRORS then h.(errorTimestamps := times, isQuarantined := true, quarantinedAt := now)
    else h.(errorTimestamps := times)
  }

  function Recovered(h: Host, now: int): Host {
    h.(isQuarantined := false, errorTimestamps := [], lastSuccessAt := now)
  }

  predicate Due(h: Host, now: int) {
    h.isQuarantined && now - h.quarantinedAt >= QUARANTINE_COOLDOWN_MS
  }

  function Probed(h: Host, now: int, ok: bool): Host {
    if !Due(h, now) then h else if ok then Recovered(h, now) else h.(quarantinedAt := now)
  }

  function Succeeded(h: Host, now: int): Host {
    if h.isQuarantined then Recovered(h, now) else h.(lastSuccessAt := now)
  }

  // ---------------------------------------------------------------- the manager

  /** The first host with the URL, or the number of hosts. */
  function IndexOf(hosts: seq<Host>, url: string): (i: nat)
    ensures i <= |hosts|
    ensures i < |hosts| ==> hosts[i].url == url
    ensures forall k :: 0 <= k < i ==> hosts[k].url != url
  {
    if hosts == [] then 0
    else if hosts[0].url == url then 0
    else 1 + IndexOf(hosts[1..], url)
  }

  function ProbeAll(hosts: seq<Host>, now: int, probe: nat -> bool): (r: seq<Host>) {
    seq(|hosts|, i requires 0 <= i < |hosts| => Probed(hosts[i], now, probe(i)))
  }

  predicate IsFirstHealthy(hosts: seq<Host>, i: int) {
    0 <= i < |hosts| && !hosts[i].isQuarantined && forall k :: 0 <= k < i ==> hosts[k].isQuarantined
  }

  function UpdateAt(hosts: seq<Host>, url: string, f: Host -> Host): seq<Host> {
    var i := IndexOf(hosts, url);
    if i < |hosts| then hosts[i := f(hosts[i])] else hosts
  }

  function AfterSuccess(hosts: seq<Host>, url: string, now: int): seq<Host> {
    UpdateAt(hosts, url, (h: Host) => Succeeded(h, now))
  }

  function AfterError(hosts: seq<Host>, url: string, e: Error, now: int): seq<Host> {
    if !Countable(e) then hosts else UpdateAt(hosts, url, (h: Host) => if h.isQuarantined then h else Struck(h, now))
  }

  class HorizonHostManager {
    var hosts: seq<Host>
    var currentHostIndex: nat

    constructor (urls: seq<string>)
      requires urls != []
      ensures hosts == Fresh(urls) && currentHostIndex == 0
    {
      hosts := Fresh(urls);
      currentHostIndex := 0;
    }

    static method Create(urls: seq<string>) returns (r: Result<HorizonHostManager, string>)
      ensures r.Err? <==> urls == []
      ensures r.Ok? ==> fresh(r.value) && r.value.hosts == Fresh(urls)
    {
      if urls == [] {
        return Err("HorizonHostManager requires at least one URL");
      }
      var manager := new HorizonHostManager(urls);
      return Ok(manager);
    }

    /** Probes the hosts whose cooldown is over, then picks the first healthy one. */
    method GetHealthyHost(now: int, probe: nat -> bool) returns (r: Option<string>)
      requires hosts != []
      modifies this
      ensures hosts == ProbeAll(old(hosts), now, probe)
      ensures r.Some? ==> IsFirstHealthy(hosts, currentHostIndex) && r.value == hosts[currentHostIndex].url
      ensures r.None? <==> forall i :: 0 <= i < |hosts| ==> hosts[i].isQuarantined
    {
      for i := 0 to |hosts|
        invariant |hosts| == |old(hosts)|
        invariant forall k :: 0 <= k < i ==> hosts[k] == Probed(old(hosts)[k], now, probe(k))
        invariant forall k :: i <= k < |hosts| ==> hosts[k] == old(hosts)[k]
      {
        var host := hosts[i];
        if host.isQuarantined && now - host.quarantinedAt >= QUARANTINE_COOLDOWN_MS {
          if probe(i) {
            hosts := hosts[i := host.(isQuarantined := false, errorTimestamps := [], lastSuccessAt := now)];
            if host.isPrimary {
              currentHostIndex := 0;
            }
          } else {
            hosts := hosts[i := host.(quarantinedAt := now)];
          }
        }
      }
      if !hosts[0].isQuarantined {
        currentHostIndex := 0;
        return Some(hosts[0].url);
      }
      for i := 1 to |hosts|
        invariant hosts == ProbeAll(old(hosts), now, probe)
        invariant forall k :: 0 <= k < i ==> hosts[k].isQuarantined
      {
        if !hosts[i].isQuarantined {
          currentHostIndex := i;
          return Some(hosts[i].url);
        }
      }
      return None;
    }

    method RecordSuccess(url: string, now: int)
      modifies this`hosts
      ensures hosts == AfterSuccess(old(hosts), url, now)
    {
      var i := IndexOf(hosts, url);
      if i < |hosts| {
        var host := hosts[i].(lastSuccessAt := now);
        if host.isQuarantined {
          host := host.(isQuarantined := false, errorTimestamps := []);
        }
        hosts := hosts[i := host];
      }
    }

    method RecordError(url: string, e: Error, now: int)
      modifies this`hosts
      ensures hosts == AfterError(old(hosts), url, e, now)
    {
      if IsHttpClientError(e) || !e.retriable {
        return;
      }
      var i := IndexOf(hosts, url);
      if i == |hosts| || hosts[i].isQuarantined {
        return;
      }
      var times := Recent(hosts[i].errorTimestamps + [now], now);
      var host := hosts[i].(errorTimestamps := times);
      if |times| >= MAX_ERRORS {
        host := host.(isQuarantined := true, quarantinedAt := now);
      }
      hosts := hosts[i := host];
    }
  }

  // ---------------------------------------------------------------- runs

  datatype Op =
    | Pick(now: int, probe: nat -> bool)
    | Success(url: string, now: int)
    | Failure(url: string, error: Error, now: int)

  function Next(hosts: seq<Host>, op: Op): seq<Host> {
    match op
    case Pick(now, probe) => ProbeAll(hosts, now, probe)
    case Success(url, now) => AfterSuccess(hosts, url, now)
    case Failure(url, e, now) => AfterError(hosts, url, e, now)
  }

  function Run(hosts: seq<Host>, ops: seq<Op>): seq<Host> {
    if ops == [] then hosts else Next(Run(hosts, ops[..|ops| - 1]), ops[|ops| - 1])
  }

  predicate DistinctUrls(hosts: seq<Host>) {
    forall i, j :: 0 <= i < j < |hosts| ==> hosts[i].url != hosts[j].url
  }

  predicate NonDecreasing(ops: seq<Op>) {
    forall i, j :: 0 <= i < j < |ops| ==> ops[i].now <= ops[j].now
  }

  /** The step readmits a quarantined host. */
  predicate Recovers(h: Host, i: nat, op: Op) {
    && h.isQuarantined
    && match op
       case Pick(now, probe) => Due(h, now) && probe(i)
       case Success(url, _) => url == h.url
       case Failure(_, _, _) => false
  }

  predicate Strikes(h: Host, op: Op) {
    op.Failure? && op.url == h.url && Countable(op.error)
  }

  /** The times of all countable errors of the i-th host since it last recovered, whether or not it
      was quarantined when they came in. */
  function ErrorsSince(hosts: seq<Host>, ops: seq<Op>, i: nat): seq<int>
    requires i < |hosts|
    decreases ops
  {
    if ops == [] then []
    else
      var n := |ops| - 1;
      var before := Run(hosts, ops[..n]);
      var rest := ErrorsSince(hosts, ops[..n], i);
      if i >= |before| then rest else TimesAfter(before[i], ops[n], i, rest)
  }

  // ---------------------------------------------------------------- bursts

  predicate Sorted(times: seq<int>) {
    forall i, j :: 0 <= i < j < |times| ==> times[i] <= times[j]
  }

  /** Three errors within the window. */
  predicate HasBurst(times: seq<int>) {
    exists i :: 0 <= i < |times| && EndsBurst(times, i)
  }

  predicate EndsBurst(times: seq<int>, i: nat)
    requires i < |times|
  {
    i >= 2 && times[i] - times[i - 2] <= ERROR_WINDOW_MS
  }

  predicate Within(t: int, now: int) {
    now - t <= ERROR_WINDOW_MS
  }

  /** The entries from `k` on are the recent ones. */
  predicate Boundary(times: seq<int>, now: int, k: nat) {
    && k <= |times|
    && (forall i :: 0 <= i < k ==> !Within(times[i], now))
    && (forall i :: k <= i < |times| ==> Within(times[i], now))
  }

  lemma {:induction false} RecentFrom(times: seq<int>, now: int, k: nat)
    requires Boundary(times, now, k)
    ensures Recent(times, now) == times[k..]
  {
    if times != [] {
      var n := |times| - 1;
      if k <= n {
        assert Within(times[n], now);
        RecentFrom(times[..n], now, k);
        assert times[..n][k..] + [times[n]] == times[k..];
      } else {
        assert !Within(times[n], now);
        RecentFrom(times[..n], now, n);
      }
    }
  }

  lemma {:induction false} FindBoundary(times: seq<int>, now: int) returns (k: nat)
    requires Sorted(times)
    ensures Boundary(times, now, k)
  {
    if times == [] {
      k := 0;
    } else {
      var n := |times| - 1;
      if Within(times[n], now) {
        k := FindBoundary(times[..n], now);
      } else {
        k := n + 1;
      }
    }
  }

  /** In a sorted log the recent entries are its end. */
  lemma RecentIsSuffix(times: seq<int>, now: int) returns (k: nat)
    requires Sorted(times)
    ensures Boundary(times, now, k) && Recent(times, now) == times[k..]
  {
    k := FindBoundary(times, now);
    RecentFrom(times, now, k);
  }

  lemma RecentSnoc(times: seq<int>, t: int, now: int)
    ensures Recent(times + [t], now) == Recent(times, now) + if now - t <= ERROR_WINDOW_MS then [t] else []
  {
    assert (times + [t])[..|times|] == times;
  }

  /** Dropping old entries early does not change what is recent later. */
  lemma {:induction false} RecentOfRecent(times: seq<int>, now: int, later: int)
    requires now <= later
    ensures Recent(Recent(times, now), later) == Recent(times, later)
  {
    if times != [] {
      var n := |times| - 1;
      RecentOfRecent(times[..n], now, later);
      RecentSnoc(Recent(times[..n], now), times[n], later);
      assert Recent(times[..n], now) + [] == Recent(times[..n], now);
    }
  }

  lemma RecentAppend(times: seq<int>, t: int)
    ensures Recent(times + [t], t) == Recent(times, t) + [t]
  {
    RecentSnoc(times, t, t);
  }

  /** What each host's fields mean in terms of its errors since the last recovery. */
  ghost predicate FollowsLog(h: Host, times: seq<int>, now: int) {
    && Sorted(times) && (forall i :: 0 <= i < |times| ==> times[i] <= now)
    && (h.isQuarantined <==> HasBurst(times))
    && (h.isQuarantined <==> |h.errorTimestamps| == MAX_ERRORS)
    && |h.errorTimestamps| <= MAX_ERRORS
    && (!h.isQuarantined ==> h.errorTimestamps == if times == [] then [] else Recent(times, times[|times| - 1]))
  }

  lemma {:induction false} BurstGrows(times: seq<int>, t: int)
    ensures HasBurst(times + [t]) <==> HasBurst(times) || EndsBurst(times + [t], |times|)
  {
    var more := times + [t];
    if i :| 0 <= i < |times| && EndsBurst(times, i) {
      assert EndsBurst(more, i);
    }
    if i :| 0 <= i < |more| && EndsBurst(more, i) {
      assert i < |times| ==> EndsBurst(times, i);
    }
  }

  /** An error is kept with exactly the earlier ones of the window, and the third quarantines. */
  lemma StrikeFollowsLog(h: Host, times: seq<int>, now: int, t: int)
    requires FollowsLog(h, times, now) && now <= t && !h.isQuarantined
    ensures FollowsLog(Struck(h, t), times + [t], t)
  {
    var more, struck := times + [t], Struck(h, t);
    SortedSnoc(times, t);
    BurstGrows(times, t);
    StruckTimes(h, times, t);
    ThreeRecentIsBurst(more);
    AtMostTwoBefore(h, times, t);
    RecentAppend(h.errorTimestamps, t);
    assert more[|more| - 1] == t;
    assert struck.errorTimestamps == Recent(more, t) && |struck.errorTimestamps| <= MAX_ERRORS;
    assert struck.isQuarantined <==> HasBurst(more);
  }

  lemma SortedSnoc(times: seq<int>, t: int)
    requires Sorted(times) && forall i :: 0 <= i < |times| ==> times[i] <= t
    ensures Sorted(times + [t]) && forall i :: 0 <= i < |times + [t]| ==> (times + [t])[i] <= t
  {
  }

  lemma StruckTimes(h: Host, times: seq<int>, t: int)
    requires times != [] ==> times[|times| - 1] <= t
    requires h.errorTimestamps == if times == [] then [] else Recent(times, times[|times| - 1])
    ensures Recent(h.errorTimestamps + [t], t) == Recent(times + [t], t)
  {
    RecentAppend(times, t);
    RecentAppend(h.errorTimestamps, t);
    if times != [] {
      RecentOfRecent(times, times[|times| - 1], t);
    }
  }

  lemma ThreeRecentIsBurst(times: seq<int>)
    requires Sorted(times) && times != []
    ensures |Recent(times, times[|times| - 1])| >= MAX_ERRORS <==> EndsBurst(times, |times| - 1)
  {
    var n := |times| - 1;
    var k := RecentIsSuffix(times, times[n]);
    if n >= 2 {
      assert EndsBurst(times, n) <==> Within(times[n - 2], times[n]);
    }
  }

  lemma AtMostTwoBefore(h: Host, times: seq<int>, t: int)
    requires Sorted(times) && |h.errorTimestamps| < MAX_ERRORS
    requires h.errorTimestamps == if times == [] then [] else Recent(times, times[|times| - 1])
    ensures |Recent(h.errorTimestamps, t)| <= 2
  {
    if times != [] {
      RecentIsSorted(times, times[|times| - 1]);
      RecentIsSorted(h.errorTimestamps, t);
    }
  }

  lemma RecentIsSorted(times: seq<int>, now: int)
    requires Sorted(times)
    ensures Sorted(Recent(times, now)) && |Recent(times, now)| <= |times|
  {
    var k := RecentIsSuffix(times, now);
  }

  lemma LateStrikeFollowsLog(h: Host, times: seq<int>, now: int, t: int)
    requires FollowsLog(h, times, now) && now <= t && h.isQuarantined
    ensures FollowsLog(h, times + [t], t)
  {
    BurstGrows(times, t);
  }

  // ---------------------------------------------------------------- every run

  lemma UpdateIsLocal(hosts: seq<Host>, url: string, f: Host -> Host, i: nat)
    requires DistinctUrls(hosts) && i < |hosts|
    ensures |UpdateAt(hosts, url, f)| == |hosts|
    ensures UpdateAt(hosts, url, f)[i] == if hosts[i].url == url then f(hosts[i]) else hosts[i]
  {
  }

  /** What one step does to one host. */
  function Local(h: Host, op: Op, i: nat): Host {
    match op
    case Pick(now, probe) => Probed(h, now, probe(i))
    case Success(url, now) => if url == h.url then Succeeded(h, now) else h
    case Failure(_, _, now) => if Strikes(h, op) && !h.isQuarantined then Struck(h, now) else h
  }

  lemma NextIsLocal(hosts: seq<Host>, op: Op, i: nat)
    requires DistinctUrls(hosts) && i < |hosts|
    ensures |Next(hosts, op)| == |hosts| && Next(hosts, op)[i] == Local(hosts[i], op, i)
  {
    match op
    case Pick(_, _) =>
    case Success(url, now) => UpdateIsLocal(hosts, url, (h: Host) => Succeeded(h, now), i);
    case Failure(url, e, now) =>
      UpdateIsLocal(hosts, url, (h: Host) => if h.isQuarantined then h else Struck(h, now), i);
  }

  lemma NextKeepsUrls(hosts: seq<Host>, op: Op)
    requires DistinctUrls(hosts)
    ensures |Next(hosts, op)| == |hosts| && DistinctUrls(Next(hosts, op))
  {
    forall i | 0 <= i < |hosts|
      ensures |Next(hosts, op)| == |hosts| && Next(hosts, op)[i].url == hosts[i].url
    {
      NextIsLocal(hosts, op, i);
    }
    assert hosts != [] ==> |Next(hosts, op)| == |hosts|;
  }

  function TimesAfter(h: Host, op: Op, i: nat, times: seq<int>): seq<int> {
    if Recovers(h, i, op) then [] else if Strikes(h, op) then times + [op.now] else times
  }

  lemma SameErrors(h: Host, g: Host, times: seq<int>, now: int, later: int)
    requires FollowsLog(h, times, now) && now <= later
    requires g.isQuarantined == h.isQuarantined && g.errorTimestamps == h.errorTimestamps
    ensures FollowsLog(g, times, later)
  {
  }

  lemma CleanSlate(g: Host, now: int)
    requires !g.isQuarantined && g.errorTimestamps == []
    ensures FollowsLog(g, [], now)
  {
  }

  lemma LocalFollowsLog(h: Host, op: Op, i: nat, times: seq<int>, now: int)
    requires FollowsLog(h, times, now) && now <= op.now
    ensures FollowsLog(Local(h, op, i), TimesAfter(h, op, i, times), op.now)
  {
    if Recovers(h, i, op) {
      CleanSlate(Local(h, op, i), op.now);
    } else if Strikes(h, op) {
      if h.isQuarantined {
        LateStrikeFollowsLog(h, times, now, op.now);
      } else {
        StrikeFollowsLog(h, times, now, op.now);
      }
    } else {
      SameErrors(h, Local(h, op, i), times, now, op.now);
    }
  }

  lemma StepFollowsLog(hosts: seq<Host>, op: Op, i: nat, times: seq<int>, now: int)
    requires DistinctUrls(hosts) && i < |hosts| && FollowsLog(hosts[i], times, now) && now <= op.now
    ensures |Next(hosts, op)| == |hosts|
    ensures FollowsLog(Next(hosts, op)[i], TimesAfter(hosts[i], op, i, times), op.now)
  {
    NextIsLocal(hosts, op, i);
    LocalFollowsLog(hosts[i], op, i, times, now);
  }

  lemma {:induction false} RunKeepsHosts(hosts: seq<Host>, ops: seq<Op>)
    requires DistinctUrls(hosts)
    ensures |Run(hosts, ops)| == |hosts| && DistinctUrls(Run(hosts, ops))
  {
    if ops != [] {
      RunKeepsHosts(hosts, ops[..|ops| - 1]);
      NextKeepsUrls(Run(hosts, ops[..|ops| - 1]), ops[|ops| - 1]);
    }
  }

  /** In every run, a host is quarantined exactly when it holds three errors, which is exactly when
      three of its errors since its last recovery fell within ten seconds; until then it holds the
      errors of the last ten seconds before the latest one. */
  lemma {:induction false} QuarantineMeansBurst(urls: seq<string>, ops: seq<Op>, i: nat)
    requires i < |urls| && DistinctUrls(Fresh(urls)) && NonDecreasing(ops)
    ensures |Run(Fresh(urls), ops)| == |urls|
    ensures FollowsLog(Run(Fresh(urls), ops)[i], ErrorsSince(Fresh(urls), ops, i),
                       if ops == [] then 0 else ops[|ops| - 1].now)
  {
    var hosts := Fresh(urls);
    if ops != [] {
      var n := |ops| - 1;
      QuarantineMeansBurst(urls, ops[..n], i);
      RunKeepsHosts(hosts, ops[..n]);
      var times := ErrorsSince(hosts, ops[..n], i);
      if n == 0 {
        assert times == [];
        StepFollowsLog(Run(hosts, ops[..n]), ops[n], i, times, ops[n].now);
      } else {
        StepFollowsLog(Run(hosts, ops[..n]), ops[n], i, times, ops[n - 1].now);
      }
    }
  }

  /** Picking a host readmits only hosts that sat out the whole cooldown and answered the probe. */
  lemma ReadmittedOnlyAfterCooldown(hosts: seq<Host>, now: int, probe: nat -> bool, i: nat)
    requires DistinctUrls(hosts) && i < |hosts| && hosts[i].isQuarantined
    ensures !Next(hosts, Pick(now, probe))[i].isQuarantined <==>
            now >= hosts[i].quarantinedAt + QUARANTINE_COOLDOWN_MS && probe(i)
  {
    NextIsLocal(hosts, Pick(now, probe), i);
  }
}
