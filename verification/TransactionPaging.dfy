/** `fetchAllTransactionsPaged` of `src/clients/horizon-contract-client.ts`: cursor-chained paging with
    retries on rate limits, against an arbitrary server and against a ledger that grows meanwhile. */
module TransactionPaging {
  import opened FiniteSets
  import opened Results

  datatype Record = Record(token: string, body: string)

  datatype Reply = Page(records: seq<Record>) | RateLimited | Failed

  datatype Failure = RateLimitError | OtherError

  type Cursor = Option<string>

  /** What the server answers to the n-th request, for a cursor and a limit. */
  type Server = (nat, Cursor, int) -> Reply

  // ---------------------------------------------------------------- one page

  predicate HasToken(records: seq<Record>, token: string) {
    exists i :: 0 <= i < |records| && records[i].token == token
  }

  /** Non-empty tokens, no two alike. */
  predicate DistinctTokens(records: seq<Record>) {
    && (forall i :: 0 <= i < |records| ==> records[i].token != "")
    && (forall i, j :: 0 <= i < j < |records| ==> records[i].token != records[j].token)
  }

  predicate Full(records: seq<Record>, maxRecords: Option<int>) {
    maxRecords.Some? && |records| >= maxRecords.value
  }

  /** Adds the records with new tokens, stopping at the maximum. */
  function Absorb(records: seq<Record>, page: seq<Record>, maxRecords: Option<int>): seq<Record>
    decreases page
  {
    if page == [] then records
    else if page[0].token == "" || HasToken(records, page[0].token) then Absorb(records, page[1..], maxRecords)
    else if Full(records + [page[0]], maxRecords) then records + [page[0]]
    else Absorb(records + [page[0]], page[1..], maxRecords)
  }

  lemma {:induction false} AbsorbKeeps(records: seq<Record>, page: seq<Record>, maxRecords: Option<int>)
    requires DistinctTokens(records) && !Full(records, maxRecords)
    ensures var r := Absorb(records, page, maxRecords);
            DistinctTokens(r) && records <= r && (maxRecords.Some? ==> |r| <= maxRecords.value)
    ensures forall i :: |records| <= i < |Absorb(records, page, maxRecords)| ==>
            Absorb(records, page, maxRecords)[i] in page
    decreases page
  {
    if page != [] {
      var more := records + [page[0]];
      if page[0].token == "" || HasToken(records, page[0].token) {
        AbsorbKeeps(records, page[1..], maxRecords);
      } else if !Full(more, maxRecords) {
        AbsorbKeeps(more, page[1..], maxRecords);
      }
    }
  }

  /** How much of a page of new records is added. */
  function Fits(records: seq<Record>, page: seq<Record>, maxRecords: Option<int>): int {
    if maxRecords.Some? && maxRecords.value - |records| < |page| then maxRecords.value - |records| else |page|
  }

  lemma {:induction false} AbsorbFresh(records: seq<Record>, page: seq<Record>, maxRecords: Option<int>)
    requires DistinctTokens(records + page) && !Full(records, maxRecords)
    ensures 0 <= Fits(records, page, maxRecords) <= |page|
    ensures Absorb(records, page, maxRecords) == records + page[..Fits(records, page, maxRecords)]
    decreases page
  {
    if page != [] {
      var more := records + [page[0]];
      assert (records + page)[|records|] == page[0];
      assert forall i :: 0 <= i < |records| ==> (records + page)[i] == records[i];
      assert !HasToken(records, page[0].token);
      assert more + page[1..] == records + page;
      if !Full(more, maxRecords) {
        AbsorbFresh(more, page[1..], maxRecords);
        assert page[..Fits(records, page, maxRecords)] == [page[0]] + page[1..][..Fits(more, page[1..], maxRecords)];
      } else {
        assert page[..1] == [page[0]];
      }
    }
  }

  method AddPage(records: seq<Record>, seenCursors: set<string>, cursor: Cursor, page: seq<Record>,
      maxRecords: Option<int>, ghost start: Cursor)
    returns (records': seq<Record>, seen': set<string>, cursor': Cursor)
    requires DistinctTokens(records) && !Full(records, maxRecords)
    requires forall t :: t in seenCursors <==> HasToken(records, t)
    requires cursor == CursorOf(start, records)
    ensures records' == Absorb(records, page, maxRecords)
    ensures forall t :: t in seen' <==> HasToken(records', t)
    ensures cursor' == CursorOf(start, records')
  {
    records', seen', cursor' := records, seenCursors, cursor;
    for i := 0 to |page|
      invariant |records'| >= |records| && DistinctTokens(records') && !Full(records', maxRecords)
      invariant Absorb(records', page[i..], maxRecords) == Absorb(records, page, maxRecords)
      invariant forall t :: t in seen' <==> HasToken(records', t)
      invariant cursor' == CursorOf(start, records')
    {
      var token := page[i].token;
      assert page[i..][1..] == page[i + 1..];
      if token != "" && token !in seen' {
        TokensGrow(records', page[i]);
        seen' := seen' + {token};
        records' := records' + [page[i]];
        cursor' := Some(token);
        if Full(records', maxRecords) {
          return;
        }
      }
    }
  }

  lemma TokensGrow(records: seq<Record>, r: Record)
    ensures forall t :: HasToken(records + [r], t) <==> HasToken(records, t) || t == r.token
  {
    forall t
      ensures HasToken(records + [r], t) <==> HasToken(records, t) || t == r.token
    {
      assert (records + [r])[|records|] == r;
      if i :| 0 <= i < |records| && records[i].token == t {
        assert (records + [r])[i] == records[i];
      }
    }
  }

  // ---------------------------------------------------------------- one request with retries

  /** Only rate limits are retried, at most `maxRetries` times. */
  method FetchPage(server: Server, call: nat, cursor: Cursor, limit: int, maxRetries: int)
    returns (page: Result<seq<Record>, Failure>, next: nat)
    ensures call < next && (forall k: nat :: call <= k < next - 1 ==> server(k, cursor, limit) == RateLimited)
    ensures next == call + 1 || next - call <= maxRetries + 1
    ensures match server(next - 1, cursor, limit)
            case Page(records) => page == Ok(records)
            case RateLimited => page == Err(RateLimitError) && next - call > maxRetries
            case Failed => page == Err(OtherError)
  {
    next := call;
    var attempt := 0;
    while true
      invariant call <= next && attempt == next - call && (attempt == 0 || attempt <= maxRetries)
      invariant forall k: nat :: call <= k < next ==> server(k, cursor, limit) == RateLimited
      decreases maxRetries - attempt
    {
      var reply := server(next, cursor, limit);
      next := next + 1;
      match reply {
        case Page(records) => return Ok(records), next;
        case Failed => return Err(OtherError), next;
        case RateLimited =>
          if attempt >= maxRetries {
            return Err(RateLimitError), next;
          }
          attempt := attempt + 1;
      }
    }
  }

  // ---------------------------------------------------------------- a ledger that grows

  /** The records after a cursor, in the requested order, at the time of the n-th request. */
  type View = (nat, Cursor) -> seq<Record>

  /** Pages are a first part of what follows the cursor, and empty only if nothing does. */
  ghost predicate Serves(server: Server, after: View) {
    forall k: nat, c, limit :: server(k, c, limit).Page? ==>
      server(k, c, limit).records <= after(k, c) && (server(k, c, limit).records == [] ==> after(k, c) == [])
  }

  /** What follows a record is the rest of the list it stands in. */
  ghost predicate Chains(after: View) {
    forall k: nat, c, i {:trigger after(k, Some(after(k, c)[i].token))} ::
      0 <= i < |after(k, c)| ==> after(k, Some(after(k, c)[i].token)) == after(k, c)[i + 1..]
  }

  ghost predicate UniqueTokens(after: View) {
    forall k: nat, c {:trigger DistinctTokens(after(k, c))} ::
      DistinctTokens(after(k, c)) && (c.Some? ==> !HasToken(after(k, c), c.value))
  }

  /** Between requests the list after a record only gets longer. */
  ghost predicate GrowsAfter(after: View) {
    forall k: nat, l: nat, t :: l == k + 1 ==> after(k, Some(t)) <= after(l, Some(t))
  }

  ghost predicate Faithful(server: Server, after: View) {
    Serves(server, after) && Chains(after) && UniqueTokens(after) && GrowsAfter(after)
  }

  /** The records start with the one that followed `start` at request `first`, and are a contiguous
      run of what follows that one at request `k`. */
  ghost predicate Contiguous(after: View, start: Cursor, first: nat, k: nat, records: seq<Record>) {
    && records != [] && after(first, start) != [] && after(first, start)[0] == records[0]
    && after(k, Some(records[0].token)) == records[1..] + after(k, Some(records[|records| - 1].token))
  }

  lemma ContiguousStart(after: View, start: Cursor, k: nat, page: seq<Record>)
    requires Chains(after) && page != [] && page <= after(k, start)
    ensures Contiguous(after, start, k, k, page)
  {
    var all, n := after(k, start), |page| - 1;
    assert all[0] == page[0] && all[n] == page[n];
    assert after(k, Some(all[0].token)) == all[1..];
    assert after(k, Some(all[n].token)) == all[n + 1..];
    assert all[1..] == page[1..] + all[n + 1..];
  }

  lemma ContiguousStep(after: View, start: Cursor, first: nat, k: nat, records: seq<Record>)
    requires Chains(after) && GrowsAfter(after) && Contiguous(after, start, first, k, records)
    ensures Contiguous(after, start, first, k + 1, records)
  {
    var n := |records| - 1;
    var now, later := after(k, Some(records[0].token)), after(k + 1, Some(records[0].token));
    assert now <= later;
    if n > 0 {
      assert later[n - 1] == now[n - 1] == records[1..][n - 1] == records[n];
      assert after(k + 1, Some(later[n - 1].token)) == later[n..];
      assert later[..n] == now[..n] == records[1..];
    }
  }

  lemma {:induction false} ContiguousLater(after: View, start: Cursor, first: nat, k: nat, later: nat,
      records: seq<Record>)
    requires Chains(after) && GrowsAfter(after) && Contiguous(after, start, first, k, records) && k <= later
    ensures Contiguous(after, start, first, later, records)
    decreases later - k
  {
    if k < later {
      ContiguousStep(after, start, first, k, records);
      ContiguousLater(after, start, first, k + 1, later, records);
    }
  }

  lemma ContiguousAppend(after: View, start: Cursor, first: nat, k: nat, records: seq<Record>, page: seq<Record>)
    requires Chains(after) && Contiguous(after, start, first, k, records)
    requires page != [] && page <= after(k, Some(records[|records| - 1].token))
    ensures Contiguous(after, start, first, k, records + page)
  {
    var rest, n := after(k, Some(records[|records| - 1].token)), |page| - 1;
    assert rest[n] == page[n];
    assert after(k, Some(rest[n].token)) == rest[n + 1..];
    Insert(records, page, rest, rest[n + 1..]);
  }

  lemma Insert(records: seq<Record>, page: seq<Record>, rest: seq<Record>, end: seq<Record>)
    requires records != [] && page <= rest && end == rest[|page|..]
    ensures records[1..] + rest == (records + page)[1..] + end
  {
  }

  /** What still follows is new. */
  lemma RestIsFresh(after: View, start: Cursor, first: nat, k: nat, records: seq<Record>, page: seq<Record>)
    requires UniqueTokens(after) && Contiguous(after, start, first, k, records)
    requires page <= after(k, Some(records[|records| - 1].token))
    ensures DistinctTokens(records + page)
  {
    var tail := after(k, Some(records[0].token));
    var rest := after(k, Some(records[|records| - 1].token));
    assert DistinctTokens(tail);
    assert DistinctTokens(after(first, start));
    ConsDistinct(records[0], tail);
    Regroup(records, rest, tail);
    PrefixDistinct(records + page, records + rest);
  }

  lemma Regroup(records: seq<Record>, rest: seq<Record>, tail: seq<Record>)
    requires records != [] && tail == records[1..] + rest
    ensures [records[0]] + tail == records + rest
  {
  }

  lemma ConsDistinct(r: Record, tail: seq<Record>)
    requires r.token != "" && DistinctTokens(tail) && !HasToken(tail, r.token)
    ensures DistinctTokens([r] + tail)
  {
  }

  lemma PrefixDistinct(a: seq<Record>, b: seq<Record>)
    requires a <= b && DistinctTokens(b)
    ensures DistinctTokens(a)
  {
    assert forall i :: 0 <= i < |a| ==> a[i] == b[i];
  }

  // ---------------------------------------------------------------- the whole fetch

  function CursorOf(start: Cursor, records: seq<Record>): Cursor {
    if records == [] then start else Some(records[|records| - 1].token)
  }

  /** The state between pages when the last request was number `last`. */
  ghost predicate OnTheRun(after: View, start: Cursor, first: nat, last: nat, records: seq<Record>) {
    records != [] ==> first <= last && Contiguous(after, start, first, last, records)
  }

  /** A page of a faithful ledger is added in full, or up to the maximum, and extends the run. */
  lemma PageExtendsRun(after: View, start: Cursor, first: nat, last: nat, k: nat, records: seq<Record>,
      page: seq<Record>, maxRecords: Option<int>)
    requires Chains(after) && UniqueTokens(after) && GrowsAfter(after)
    requires OnTheRun(after, start, first, last, records) && (records != [] ==> last <= k) && !Full(records, maxRecords)
    requires page != [] && page <= after(k, CursorOf(start, records))
    ensures |Absorb(records, page, maxRecords)| > |records|
    ensures OnTheRun(after, start, if records == [] then k else first, k, Absorb(records, page, maxRecords))
  {
    var n := Fits(records, page, maxRecords);
    if records == [] {
      assert DistinctTokens(after(k, start));
      PrefixDistinct(page, after(k, start));
      assert [] + page == page;
      AbsorbFresh([], page, maxRecords);
      ContiguousStart(after, start, k, page[..n]);
      assert [] + page[..n] == page[..n];
    } else {
      ContiguousLater(after, start, first, last, k, records);
      RestIsFresh(after, start, first, k, records, page);
      AbsorbFresh(records, page, maxRecords);
      ContiguousAppend(after, start, first, k, records, page[..n]);
    }
  }

  /** A contiguous run that ends at the maximum or where nothing followed. */
  ghost predicate Complete(after: View, start: Cursor, first: nat, last: nat, records: seq<Record>,
      maxRecords: Option<int>)
  {
    && OnTheRun(after, start, first, last, records)
    && (Full(records, maxRecords) || after(last, CursorOf(start, records)) == [])
  }

  /** Every token the server ever sends is one of finitely many. */
  ghost predicate Bounded(server: Server, universe: set<string>) {
    forall k: nat, c, limit :: server(k, c, limit).Page? ==>
      forall r :: r in server(k, c, limit).records ==> r.token in universe
  }

  ghost function Left(universe: set<string>, records: seq<Record>, maxRecords: Option<int>): int {
    if maxRecords.Some? then maxRecords.value - |records|
    else |universe - set i | 0 <= i < |records| :: records[i].token|
  }

  /** With no maximum, each new token leaves fewer to come. */
  lemma FewerLeft(universe: set<string>, records: seq<Record>, more: seq<Record>, maxRecords: Option<int>)
    requires records <= more && |records| < |more| && DistinctTokens(more)
    requires maxRecords.None? ==> more[|records|].token in universe
    ensures Left(universe, more, maxRecords) < Left(universe, records, maxRecords)
  {
    if maxRecords.None? {
      var a := universe - set i | 0 <= i < |records| :: records[i].token;
      var b := universe - set i | 0 <= i < |more| :: more[i].token;
      var t := more[|records|].token;
      assert t in a && t !in b;
      assert b <= a - {t};
      SubsetSize(b, a - {t});
    }
  }

  lemma NewTokenIsBounded(server: Server, universe: set<string>, k: nat, cursor: Cursor, limit: int, r: Record,
      maxRecords: Option<int>)
    requires maxRecords.None? ==> Bounded(server, universe)
    requires server(k, cursor, limit).Page? && r in server(k, cursor, limit).records
    ensures maxRecords.None? ==> r.token in universe
  {
  }

  /** What a page means on a faithful ledger: an empty one ends the run, any other extends it. */
  lemma PageArrived(server: Server, after: View, start: Cursor, first: nat, last: nat, k: nat, records: seq<Record>,
      limit: int, page: seq<Record>, maxRecords: Option<int>)
    requires server(k, CursorOf(start, records), limit) == Page(page) && last <= k && !Full(records, maxRecords)
    requires Faithful(server, after) ==> OnTheRun(after, start, first, last, records)
    ensures Faithful(server, after) && page == [] ==> Complete(after, start, first, k, records, maxRecords)
    ensures Faithful(server, after) && page != [] ==>
              && |Absorb(records, page, maxRecords)| > |records|
              && OnTheRun(after, start, if records == [] then k else first, k, Absorb(records, page, maxRecords))
  {
    if Faithful(server, after) {
      PageIsServed(server, after, k, CursorOf(start, records), limit);
      if page != [] {
        PageExtendsRun(after, start, first, last, k, records, page, maxRecords);
      } else if records != [] {
        ContiguousLater(after, start, first, last, k, records);
      }
    }
  }

  lemma PageIsServed(server: Server, after: View, k: nat, cursor: Cursor, limit: int)
    requires Serves(server, after) && server(k, cursor, limit).Page?
    ensures server(k, cursor, limit).records <= after(k, cursor)
    ensures server(k, cursor, limit).records == [] ==> after(k, cursor) == []
  {
  }

  /** `first` and `last` are the numbers of the first and the last request that got a page. */
  method FetchAllTransactionsPaged(
    server: Server, start: Cursor, limitPerPage: int, maxRecords: Option<int>, maxRetries: int,
    ghost universe: set<string>, ghost after: View)
    returns (r: Result<seq<Record>, Failure>, ghost first: nat, ghost last: nat)
    requires maxRecords.None? ==> Bounded(server, universe)
    ensures r.Ok? ==> DistinctTokens(r.value) && (maxRecords.Some? && |r.value| > 0 ==> |r.value| <= maxRecords.value)
    ensures r.Ok? && Faithful(server, after) ==> Complete(after, start, first, last, r.value, maxRecords)
  {
    var records, seenCursors, cursor, call := [], {}, start, 0;
    first, last := 0, 0;
    while !Full(records, maxRecords)
      invariant DistinctTokens(records) && cursor == CursorOf(start, records)
      invariant |records| > 0 && maxRecords.Some? ==> |records| <= maxRecords.value
      invariant forall t :: t in seenCursors <==> HasToken(records, t)
      invariant last <= call
      invariant Faithful(server, after) ==> OnTheRun(after, start, first, last, records)
      decreases Left(universe, records, maxRecords)
    {
      var fetchLimit :=
        if maxRecords.Some? && maxRecords.value - |records| < limitPerPage
        then maxRecords.value - |records| else limitPerPage;
      var page, next := FetchPage(server, call, cursor, fetchLimit, maxRetries);
      if page.Err? {
        return Err(page.error), first, last;
      }
      ghost var k := next - 1;
      PageArrived(server, after, start, first, last, k, records, fetchLimit, page.value, maxRecords);
      if page.value == [] {
        return Ok(records), first, k;
      }
      AbsorbKeeps(records, page.value, maxRecords);
      var before := records;
      records, seenCursors, cursor := AddPage(records, seenCursors, cursor, page.value, maxRecords, start);
      first := if before == [] then k else first;
      last, call := k, next;
      if |records| == |before| {
        return Ok(records), first, last;
      }
      NewTokenIsBounded(server, universe, k, CursorOf(start, before), fetchLimit, records[|before|], maxRecords);
      FewerLeft(universe, before, records, maxRecords);
    }
    return Ok(records), first, last;
  }

  // ---------------------------------------------------------------- what the run is

  ghost predicate GrowsFrom(after: View, start: Cursor) {
    forall k: nat, l: nat :: l == k + 1 ==> after(k, start) <= after(l, start)
  }

  lemma {:induction false} GrowsLater(after: View, start: Cursor, k: nat, later: nat)
    requires GrowsFrom(after, start) && k <= later
    ensures after(k, start) <= after(later, start)
    decreases later - k
  {
    if k < later {
      assert after(k, start) <= after(k + 1, start);
      GrowsLater(after, start, k + 1, later);
    }
  }

  /** Ascending order, where the ledger grows at its end: the result is a first part of everything
      after the initial cursor as of the last request, and all of it unless the maximum cut it. */
  lemma AscendingRun(after: View, start: Cursor, first: nat, last: nat, records: seq<Record>, maxRecords: Option<int>)
    requires Chains(after) && GrowsFrom(after, start)
    requires Complete(after, start, first, last, records, maxRecords)
    ensures records <= after(last, start)
    ensures Full(records, maxRecords) || records == after(last, start)
  {
    if records != [] {
      GrowsLater(after, start, first, last);
      var all := after(last, start);
      assert all[0] == records[0];
      assert after(last, Some(all[0].token)) == all[1..];
      SameHead(records, after(last, CursorOf(start, records)), all);
    }
  }

  /** What follows a record never changes. */
  ghost predicate Frozen(after: View) {
    forall k: nat, l: nat, t :: after(k, Some(t)) == after(l, Some(t))
  }

  /** Descending order, where new records appear in front: the result is a first part of everything
      after the initial cursor as of the first page, and all of it unless the maximum cut it. */
  lemma DescendingRun(after: View, start: Cursor, first: nat, last: nat, records: seq<Record>, maxRecords: Option<int>)
    requires Chains(after) && records != []
    requires Frozen(after)
    requires Complete(after, start, first, last, records, maxRecords)
    ensures records <= after(first, start)
    ensures Full(records, maxRecords) || records == after(first, start)
  {
    var all := after(first, start);
    assert after(first, Some(all[0].token)) == all[1..];
    FrozenSame(after, first, last, all[0].token);
    SameHead(records, after(last, CursorOf(start, records)), all);
  }

  lemma FrozenSame(after: View, k: nat, l: nat, t: string)
    requires Frozen(after)
    ensures after(k, Some(t)) == after(l, Some(t))
  {
  }

  lemma SameHead(records: seq<Record>, rest: seq<Record>, all: seq<Record>)
    requires records != [] && all != [] && all[0] == records[0] && all[1..] == records[1..] + rest
    ensures all == records + rest
  {
    assert all == [all[0]] + all[1..];
    assert records == [records[0]] + records[1..];
  }
}
