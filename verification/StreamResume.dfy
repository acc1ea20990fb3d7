/** Resuming an event stream from a stored cursor: `streamEvents` of
    `src/clients/horizon-contract-client.ts` over the store of `src/clients/cursor-store.ts`.

    The server holds a ledger of events that only grows; events are numbered by their position
    and a cursor is the number of the event it names. A run is a sequence of connection
    attempts chosen by the environment: store reads and writes may fail, connections may be
    refused, be cut at any event, or end in a handler crash. */
module StreamResume {
  import opened Results
  import opened Sequences
  import SseFraming

  /** One event handed to `onEvent`: does it resolve, and does the cursor write succeed? */
  datatype Delivery = Delivery(handlerOk: bool, writeOk: bool)

  datatype Response =
    | Unreachable
    | ServerError
    | ClientError
    | NoBody
    | Body(deliveries: seq<Delivery>, end: SseFraming.BodyEnd)

  /** One turn of the reconnect loop; `size` is the length of the ledger at that moment. */
  datatype Attempt = Attempt(readOk: bool, size: nat, response: Response)

  /** `stored` is the value under the stream's key, `log` the events whose `onEvent` resolved,
      in order, and `written` the cursors that reached the store. */
  datatype Stream = Stream(stored: Option<nat>, log: seq<nat>, written: seq<nat>)

  // ---------------------------------------------------------------- one connection

  /** The cursor of a connection; `None` stands for the "now" fallback. */
  function CursorOf(resumeAfter: Option<nat>, stored: Option<nat>, readOk: bool): Option<nat> {
    if resumeAfter.Some? then resumeAfter else if readOk then stored else None
  }

  /** The first event the server sends. */
  function FirstEvent(cursor: Option<nat>, size: nat): nat {
    match cursor
    case Some(c) => c + 1
    case None => size
  }

  /** Events from `next` on are handed over until the handler fails or the body ends. */
  function Deliver(s: Stream, next: nat, ds: seq<Delivery>): Stream
    decreases |ds|
  {
    if ds == [] || !ds[0].handlerOk then s
    else if ds[0].writeOk then
      Deliver(Stream(Some(next), s.log + [next], s.written + [next]), next + 1, ds[1..])
    else
      Deliver(s.(log := s.log + [next]), next + 1, ds[1..])
  }

  predicate HandlerCrashed(ds: seq<Delivery>) {
    exists i :: 0 <= i < |ds| && !ds[i].handlerOk
  }

  function Connect(s: Stream, resumeAfter: Option<nat>, a: Attempt): Stream {
    match a.response
    case Body(ds, _) => Deliver(s, FirstEvent(CursorOf(resumeAfter, s.stored, a.readOk), a.size), ds)
    case _ => s
  }

  /** The loop goes round again after a refused connection, a crash of the handler or a
      network failure; everything else ends the stream. */
  predicate Reconnects(r: Response) {
    match r
    case Unreachable => true
    case ServerError => true
    case ClientError => false
    case NoBody => false
    case Body(ds, end) => !end.Aborted? && (HandlerCrashed(ds) || end.NetworkError?)
  }

  function Run(s: Stream, resumeAfter: Option<nat>, script: seq<Attempt>): Stream
    decreases |script|
  {
    if script == [] then s
    else
      var t := Connect(s, resumeAfter, script[0]);
      if Reconnects(script[0].response) then Run(t, resumeAfter, script[1..]) else t
  }

  // ---------------------------------------------------------------- the code

  /** `InMemoryCursorStore`. */
  class CursorStore {
    var entries: map<string, nat>

    constructor ()
      ensures entries == map[]
    {
      entries := map[];
    }

    function Get(key: string): Option<nat>
      reads this
    {
      if key in entries then Some(entries[key]) else None
    }

    method Set(key: string, cursor: nat)
      modifies this
      ensures Get(key) == Some(cursor) && forall k :: k != key ==> Get(k) == old(Get(k))
    {
      entries := entries[key := cursor];
    }

    method Delete(key: string)
      modifies this
      ensures Get(key) == None && forall k :: k != key ==> Get(k) == old(Get(k))
    {
      entries := entries - {key};
    }
  }

  /** The callback given to `runSseConnection`: handle first, then save the cursor. */
  method DeliverAll(store: CursorStore, key: string, next: nat, ds: seq<Delivery>, log0: seq<nat>, written0: seq<nat>)
    returns (log: seq<nat>, written: seq<nat>)
    modifies store
    ensures Stream(store.Get(key), log, written) == Deliver(Stream(old(store.Get(key)), log0, written0), next, ds)
    ensures forall k :: k != key ==> store.Get(k) == old(store.Get(k))
  {
    log, written := log0, written0;
    var i := 0;
    while i < |ds| && ds[i].handlerOk
      invariant 0 <= i <= |ds|
      invariant Deliver(Stream(store.Get(key), log, written), next + i, ds[i..])
             == Deliver(Stream(old(store.Get(key)), log0, written0), next, ds)
      invariant forall k :: k != key ==> store.Get(k) == old(store.Get(k))
    {
      assert ds[i..][1..] == ds[i + 1..];
      log := log + [next + i];
      if ds[i].writeOk {
        store.Set(key, next + i);
        written := written + [next + i];
      }
      i := i + 1;
    }
  }

  /** `streamEvents`, for every behaviour of the server, the handler and the store. */
  method StreamEvents(store: CursorStore, key: string, resumeAfter: Option<nat>, script: seq<Attempt>)
    returns (log: seq<nat>, written: seq<nat>)
    modifies store
    ensures Stream(store.Get(key), log, written) == Run(Stream(old(store.Get(key)), [], []), resumeAfter, script)
    ensures forall k :: k != key ==> store.Get(k) == old(store.Get(k))
  {
    log, written := [], [];
    var i := 0;
    while i < |script|
      invariant 0 <= i <= |script|
      invariant Run(Stream(store.Get(key), log, written), resumeAfter, script[i..])
             == Run(Stream(old(store.Get(key)), [], []), resumeAfter, script)
      invariant forall k :: k != key ==> store.Get(k) == old(store.Get(k))
    {
      assert script[i..][1..] == script[i + 1..];
      var cursor := resumeAfter;
      if cursor.None? && script[i].readOk {
        cursor := store.Get(key);
      }
      if script[i].response.Body? {
        log, written := DeliverAll(store, key, FirstEvent(cursor, script[i].size), script[i].response.deliveries, log,
            written);
      }
      if !Reconnects(script[i].response) {
        return;
      }
      i := i + 1;
    }
  }

  // ---------------------------------------------------------------- nothing is skipped

  function Highest(start: nat, log: seq<nat>): nat {
    if log == [] then start
    else
      var h := Highest(start, log[..|log| - 1]);
      if log[|log| - 1] > h then log[|log| - 1] else h
  }

  /** No event is handled before the one it follows; `start` is the initial cursor. */
  predicate InOrder(start: nat, log: seq<nat>) {
    log == [] ||
    (var earlier := log[..|log| - 1];
     InOrder(start, earlier) && start < log[|log| - 1] <= Highest(start, earlier) + 1)
  }

  /** The handled events are exactly those after `start` up to the highest one. */
  lemma {:induction false} InOrderIsContiguous(start: nat, log: seq<nat>)
    requires InOrder(start, log)
    ensures forall x :: x in log <==> start < x <= Highest(start, log)
  {
    if log != [] {
      var earlier, last := log[..|log| - 1], log[|log| - 1];
      InOrderIsContiguous(start, earlier);
      assert log == earlier + [last];
    }
  }

  lemma InOrderGrows(start: nat, log: seq<nat>, next: nat)
    ensures InOrder(start, log + [next]) <==> InOrder(start, log) && start < next <= Highest(start, log) + 1
    ensures Highest(start, log + [next]) == if next > Highest(start, log) then next else Highest(start, log)
  {
    assert (log + [next])[..|log|] == log;
  }

  /** What a connection that starts no later than the first unseen event keeps. */
  ghost predicate Consistent(start: nat, s: Stream) {
    && InOrder(start, s.log)
    && (forall c :: c in s.written ==> c in s.log)
  }

  /** The stored cursor is the start cursor or one the stream has handled. */
  ghost predicate StoreBehind(start: nat, s: Stream) {
    s.stored.Some? && start <= s.stored.value <= Highest(start, s.log)
  }

  lemma HandledKeepsOrder(start: nat, s: Stream, next: nat, t: Stream)
    requires Consistent(start, s) && start < next <= Highest(start, s.log) + 1
    requires t == Stream(Some(next), s.log + [next], s.written + [next]) || t == s.(log := s.log + [next])
    ensures Consistent(start, t) && next <= Highest(start, t.log) && Highest(start, s.log) <= Highest(start, t.log)
    ensures StoreBehind(start, s) || t.stored == Some(next) ==> StoreBehind(start, t)
  {
    InOrderGrows(start, s.log, next);
  }

  lemma {:induction false} DeliverKeepsOrder(start: nat, s: Stream, next: nat, ds: seq<Delivery>)
    requires Consistent(start, s) && start < next <= Highest(start, s.log) + 1
    ensures var t := Deliver(s, next, ds);
            && Consistent(start, t) && Highest(start, s.log) <= Highest(start, t.log)
            && (StoreBehind(start, s) ==> StoreBehind(start, t))
            && (t.stored == s.stored || StoreBehind(start, t))
    decreases |ds|
  {
    if ds != [] && ds[0].handlerOk {
      var t := if ds[0].writeOk then Stream(Some(next), s.log + [next], s.written + [next])
          else s.(log := s.log + [next]);
      HandledKeepsOrder(start, s, next, t);
      DeliverKeepsOrder(start, t, next + 1, ds[1..]);
    }
  }

  /** Reads succeed and a start cursor exists: over every run of refused connections, cut
      bodies, handler crashes and failed cursor writes, the handled events are a contiguous
      block after the start cursor, handled first in order, and every written cursor is one of
      them. */
  lemma {:induction false} NeverSkips(start: nat, s: Stream, resumeAfter: Option<nat>, script: seq<Attempt>)
    requires Consistent(start, s)
    requires if resumeAfter.Some? then resumeAfter.value == start else StoreBehind(start, s)
    requires forall i :: 0 <= i < |script| ==> script[i].readOk
    ensures var t := Run(s, resumeAfter, script);
            && Consistent(start, t)
            && forall x :: x in t.log <==> start < x <= Highest(start, t.log)
    decreases |script|
  {
    InOrderIsContiguous(start, Run(s, resumeAfter, []).log);
    HighestAtLeastStart(start, s.log);
    if script != [] {
      assert script[0].readOk;
      var t := Connect(s, resumeAfter, script[0]);
      if script[0].response.Body? {
        DeliverKeepsOrder(start, s, FirstEvent(CursorOf(resumeAfter, s.stored, true), script[0].size),
            script[0].response.deliveries);
      }
      InOrderIsContiguous(start, t.log);
      if Reconnects(script[0].response) {
        NeverSkips(start, t, resumeAfter, script[1..]);
      }
    }
  }

  lemma {:induction false} HighestAtLeastStart(start: nat, log: seq<nat>)
    ensures start <= Highest(start, log)
  {
    if log != [] {
      HighestAtLeastStart(start, log[..|log| - 1]);
    }
  }

  // ---------------------------------------------------------------- exactly when it skips

  /** A connection that lost its cursor, starts past an event nobody has handled and gets its
      first event accepted. */
  predicate Jumps(start: nat, s: Stream, resumeAfter: Option<nat>, a: Attempt) {
    && a.response.Body? && a.response.deliveries != [] && a.response.deliveries[0].handlerOk
    && CursorOf(resumeAfter, s.stored, a.readOk).None?
    && a.size > Highest(start, s.log) + 1
  }

  predicate EverJumps(start: nat, s: Stream, resumeAfter: Option<nat>, script: seq<Attempt>)
    decreases |script|
  {
    script != [] &&
    (Jumps(start, s, resumeAfter, script[0]) ||
     (Reconnects(script[0].response) && EverJumps(start, Connect(s, resumeAfter, script[0]), resumeAfter, script[1..])))
  }

  /** The ledger holds every event the stream has handled. */
  predicate LedgerCovers(start: nat, s: Stream, resumeAfter: Option<nat>, script: seq<Attempt>)
    decreases |script|
  {
    script == [] ||
    (script[0].size > Highest(start, s.log) &&
     LedgerCovers(start, Connect(s, resumeAfter, script[0]), resumeAfter, script[1..]))
  }

  lemma {:induction false} LogOnlyGrows(s: Stream, next: nat, ds: seq<Delivery>)
    ensures s.log <= Deliver(s, next, ds).log
    ensures ds != [] && ds[0].handlerOk ==> s.log + [next] <= Deliver(s, next, ds).log
    decreases |ds|
  {
    if ds != [] && ds[0].handlerOk {
      var t := if ds[0].writeOk then Stream(Some(next), s.log + [next], s.written + [next])
          else s.(log := s.log + [next]);
      LogOnlyGrows(t, next + 1, ds[1..]);
    }
  }

  lemma {:induction false} RunOnlyGrows(s: Stream, resumeAfter: Option<nat>, script: seq<Attempt>)
    ensures s.log <= Run(s, resumeAfter, script).log
    decreases |script|
  {
    if script != [] {
      if script[0].response.Body? {
        LogOnlyGrows(s, FirstEvent(CursorOf(resumeAfter, s.stored, script[0].readOk), script[0].size),
            script[0].response.deliveries);
      }
      RunOnlyGrows(Connect(s, resumeAfter, script[0]), resumeAfter, script[1..]);
    }
  }

  lemma {:induction false} InOrderPrefix(start: nat, log: seq<nat>, more: seq<nat>)
    requires log <= more && InOrder(start, more)
    ensures InOrder(start, log)
    decreases |more|
  {
    if |log| < |more| {
      InOrderPrefix(start, log, more[..|more| - 1]);
    } else {
      assert log == more;
    }
  }

  /** With failing reads as well, events are skipped in exactly those runs in which a
      connection falls back to "now" while the ledger is ahead of the handler. */
  lemma {:induction false} SkipsExactlyWhenJumping(start: nat, s: Stream, resumeAfter: Option<nat>,
      script: seq<Attempt>)
    requires Consistent(start, s) && StoreBehind(start, s)
    requires resumeAfter.Some? ==> resumeAfter.value == start
    requires LedgerCovers(start, s, resumeAfter, script)
    ensures InOrder(start, Run(s, resumeAfter, script).log) <==> !EverJumps(start, s, resumeAfter, script)
    decreases |script|
  {
    if script != [] {
      var a := script[0];
      var t := Connect(s, resumeAfter, a);
      var next := FirstEvent(CursorOf(resumeAfter, s.stored, a.readOk), a.size);
      HighestAtLeastStart(start, s.log);
      if Jumps(start, s, resumeAfter, a) {
        LogOnlyGrows(s, next, a.response.deliveries);
        InOrderGrows(start, s.log, next);
        RunOnlyGrows(t, resumeAfter, script[1..]);
        if InOrder(start, Run(s, resumeAfter, script).log) {
          InOrderPrefix(start, s.log + [next], Run(s, resumeAfter, script).log);
        }
      } else {
        if a.response.Body? && a.response.deliveries != [] && a.response.deliveries[0].handlerOk {
          DeliverKeepsOrder(start, s, next, a.response.deliveries);
        }
        if Reconnects(a.response) {
          SkipsExactlyWhenJumping(start, t, resumeAfter, script[1..]);
        }
      }
    }
  }

  /** Such a run: the cursor cannot be read once while the ledger is `gap` events ahead, and the
      stream goes on after all of them. */
  lemma UnreadableCursorSkips(start: nat, gap: nat)
    requires gap > 0
    ensures var a := Attempt(false, start + gap + 1, Body([Delivery(true, true)], SseFraming.CleanClose));
            var t := Run(Stream(Some(start), [], []), None, [a]);
            t.log == [start + gap + 1] && t.stored == Some(start + gap + 1) && !InOrder(start, t.log)
  {
    var ds := [Delivery(true, true)];
    var a := Attempt(false, start + gap + 1, Body(ds, SseFraming.CleanClose));
    var s := Stream(Some(start), [], []);
    assert ds[1..] == [] && [a][1..] == [];
    assert Connect(s, None, a) == Deliver(s, start + gap + 1, ds);
    InOrderGrows(start, [], start + gap + 1);
    assert [] + [start + gap + 1] == [start + gap + 1];
  }

  // ---------------------------------------------------------------- at most once

  predicate AllWritesOk(a: Attempt) {
    a.response.Body? ==> forall i :: 0 <= i < |a.response.deliveries| ==> a.response.deliveries[i].writeOk
  }

  /** The events start + 1, start + 2, ... each once. */
  predicate Consecutive(start: nat, log: seq<nat>) {
    forall i :: 0 <= i < |log| ==> log[i] == start + 1 + i
  }

  lemma {:induction false} DeliverKeepsConsecutive(start: nat, s: Stream, ds: seq<Delivery>)
    requires Consecutive(start, s.log) && s.stored == Some(start + |s.log|)
    requires forall i :: 0 <= i < |ds| ==> ds[i].writeOk
    ensures var t := Deliver(s, start + |s.log| + 1, ds); Consecutive(start, t.log) && t.stored == Some(start + |t.log|)
    decreases |ds|
  {
    if ds != [] && ds[0].handlerOk {
      var next := start + |s.log| + 1;
      assert ds[0].writeOk;
      DeliverKeepsConsecutive(start, Stream(Some(next), s.log + [next], s.written + [next]), ds[1..]);
    }
  }

  /** With no failed store access and no `resumeAfter`, every event is handled exactly once and
      in ledger order, whatever the connections and the handler do. */
  lemma {:induction false} ExactlyOnceWithDurableStore(start: nat, s: Stream, script: seq<Attempt>)
    requires Consecutive(start, s.log) && s.stored == Some(start + |s.log|)
    requires forall i :: 0 <= i < |script| ==> script[i].readOk && AllWritesOk(script[i])
    ensures var t := Run(s, None, script); Consecutive(start, t.log) && t.stored == Some(start + |t.log|)
    decreases |script|
  {
    if script != [] {
      assert script[0].readOk && AllWritesOk(script[0]);
      if script[0].response.Body? {
        DeliverKeepsConsecutive(start, s, script[0].response.deliveries);
      }
      ExactlyOnceWithDurableStore(start, Connect(s, None, script[0]), script[1..]);
    }
  }

  /** A connection whose cursor lies behind an event already handled, because a write failed or
      `resumeAfter` overrides the store, and whose first event is accepted. */
  predicate Rewinds(start: nat, s: Stream, resumeAfter: Option<nat>, a: Attempt) {
    && a.response.Body? && a.response.deliveries != [] && a.response.deliveries[0].handlerOk
    && FirstEvent(CursorOf(resumeAfter, s.stored, a.readOk), a.size) <= Highest(start, s.log)
  }

  predicate EverRewinds(start: nat, s: Stream, resumeAfter: Option<nat>, script: seq<Attempt>)
    decreases |script|
  {
    script != [] &&
    (Rewinds(start, s, resumeAfter, script[0]) ||
     (Reconnects(script[0].response) &&
         EverRewinds(start, Connect(s, resumeAfter, script[0]), resumeAfter, script[1..])))
  }

  lemma {:induction false} ConsecutiveIsInOrder(start: nat, log: seq<nat>)
    requires Consecutive(start, log)
    ensures InOrder(start, log) && Highest(start, log) == start + |log|
  {
    if log != [] {
      ConsecutiveIsInOrder(start, log[..|log| - 1]);
    }
  }

  lemma {:induction false} DeliverContinues(start: nat, s: Stream, ds: seq<Delivery>)
    requires Consecutive(start, s.log)
    ensures Consecutive(start, Deliver(s, start + |s.log| + 1, ds).log)
    decreases |ds|
  {
    if ds != [] && ds[0].handlerOk {
      var next := start + |s.log| + 1;
      var t := if ds[0].writeOk then Stream(Some(next), s.log + [next], s.written + [next])
          else s.(log := s.log + [next]);
      DeliverContinues(start, t, ds[1..]);
    }
  }

  /** With readable cursors, events are handled exactly once and in order in exactly those runs
      in which no connection rewinds. */
  lemma {:induction false} OnceExactlyWhenNotRewinding(start: nat, s: Stream, resumeAfter: Option<nat>,
      script: seq<Attempt>)
    requires Consecutive(start, s.log) && Consistent(start, s)
    requires if resumeAfter.Some? then resumeAfter.value == start else StoreBehind(start, s)
    requires forall i :: 0 <= i < |script| ==> script[i].readOk
    ensures Consecutive(start, Run(s, resumeAfter, script).log) <==> !EverRewinds(start, s, resumeAfter, script)
    decreases |script|
  {
    ConsecutiveIsInOrder(start, s.log);
    if script != [] {
      var a := script[0];
      assert a.readOk;
      var t := Connect(s, resumeAfter, a);
      var next := FirstEvent(CursorOf(resumeAfter, s.stored, true), a.size);
      if Rewinds(start, s, resumeAfter, a) {
        LogOnlyGrows(s, next, a.response.deliveries);
        RunOnlyGrows(t, resumeAfter, script[1..]);
        var log := Run(s, resumeAfter, script).log;
        assert (s.log + [next])[|s.log|] == next;
        assert log[|s.log|] == next;
      } else {
        if a.response.Body? && a.response.deliveries != [] && a.response.deliveries[0].handlerOk {
          DeliverContinues(start, s, a.response.deliveries);
          DeliverKeepsOrder(start, s, next, a.response.deliveries);
        }
        if Reconnects(a.response) {
          OnceExactlyWhenNotRewinding(start, t, resumeAfter, script[1..]);
        }
      }
    }
  }

  /** `resumeAfter` is used again on every reconnect, not only on the first connection, so a
      single disconnect makes every event so far come twice. */
  lemma ResumeAfterRedelivers(start: nat, n: nat)
    ensures var ds := seq(n, _ => Delivery(true, true));
            var a := Attempt(true, start + n + 1, Body(ds, SseFraming.NetworkError));
            var t := Run(Stream(Some(start), [], []), Some(start), [a, a]);
            t.log == Numbers(start + 1, n) + Numbers(start + 1, n)
  {
    var ds := seq(n, _ => Delivery(true, true));
    var a := Attempt(true, start + n + 1, Body(ds, SseFraming.NetworkError));
    var s := Stream(Some(start), [], []);
    DeliverAccepts(s, start + 1, ds);
    var t := Connect(s, Some(start), a);
    DeliverAccepts(t, start + 1, ds);
    assert [a, a][1..] == [a] && [a][1..] == [];
    assert Run(s, Some(start), [a, a]) == Run(t, Some(start), [a]);
    assert Run(t, Some(start), [a]) == Connect(t, Some(start), a);
  }

  lemma DeliverAccepts(s: Stream, next: nat, ds: seq<Delivery>)
    requires forall i :: 0 <= i < |ds| ==> ds[i].handlerOk
    ensures Deliver(s, next, ds).log == s.log + Numbers(next, |ds|)
  {
    DeliverUntil(s, next, ds, |ds|);
  }

  // ---------------------------------------------------------------- from bytes to numbers

  /** The numbers of `n` events from `next` on. */
  function Numbers(next: nat, n: nat): seq<nat> {
    seq(n, i requires 0 <= i < n => next + i)
  }

  lemma NumbersCons(next: nat, n: nat)
    requires n > 0
    ensures Numbers(next, n) == [next] + Numbers(next + 1, n - 1)
  {
  }

  /** A connection handles events up to the first one that is rejected. */
  lemma {:induction false} DeliverUntil(s: Stream, next: nat, ds: seq<Delivery>, n: nat)
    requires n <= |ds| && (forall i :: 0 <= i < n ==> ds[i].handlerOk) && (n < |ds| ==> !ds[n].handlerOk)
    ensures Deliver(s, next, ds).log == s.log + Numbers(next, n)
    decreases n
  {
    if n > 0 {
      assert ds[0].handlerOk;
      var t := if ds[0].writeOk then Stream(Some(next), s.log + [next], s.written + [next])
          else s.(log := s.log + [next]);
      DeliverUntil(t, next + 1, ds[1..], n - 1);
      NumbersCons(next, n);
      ConcatAssoc(s.log, [next], Numbers(next + 1, n - 1));
    }
  }

  /** Whatever beginning of the text of the ledger from `next` on arrives, and however it ends, the
      k-th event read is the one numbered `next + k`. */
  lemma BodyReadsLedger(ledger: seq<SseFraming.SseEvent>, next: nat, n: nat, end: SseFraming.BodyEnd,
      decode: SseFraming.Decoder)
    requires next <= |ledger| && n <= |SseFraming.StreamText(ledger[next..])|
    requires forall i :: 0 <= i < |ledger| ==> SseFraming.Cuttable(ledger[i], decode)
    ensures var text := SseFraming.StreamText(ledger[next..])[..n];
            SseFraming.EventsOf(SseFraming.ReferenceFrames(text, end), SseFraming.ParserOf(decode)) <= ledger[next..]
  {
    var frames := SseFraming.Split(SseFraming.StreamText(ledger[next..])[..n]);
    SseFraming.CutStreamDeliversPrefix(ledger[next..], n, decode);
    SseFraming.EventsPrefix(frames, |frames| - 1, SseFraming.ParserOf(decode));
  }

  /** The bytes of a connection and the numbers of the model: when `runSseConnection` reads any
      beginning of the ledger's text from `next` on, its attempts are the events `next`, `next + 1`
      and so on, and the events logged are exactly the accepted ones. */
  lemma ConnectionMatchesModel(
    ledger: seq<SseFraming.SseEvent>, next: nat, n: nat, end: SseFraming.BodyEnd, decode: SseFraming.Decoder,
    attempts: seq<SseFraming.SseEvent>, accepts: nat -> bool, failed: bool, writes: nat -> bool, s: Stream)
    requires next <= |ledger| && n <= |SseFraming.StreamText(ledger[next..])|
    requires forall i :: 0 <= i < |ledger| ==> SseFraming.Cuttable(ledger[i], decode)
    requires var text := SseFraming.StreamText(ledger[next..])[..n];
             var events := SseFraming.EventsOf(SseFraming.ReferenceFrames(text, end), SseFraming.ParserOf(decode));
             SseFraming.DeliveredUntilFailure(attempts, events, accepts, failed)
    ensures attempts <= ledger[next..]
    ensures var ds := seq(|attempts|, k requires 0 <= k < |attempts| => Delivery(accepts(k), writes(k)));
            Deliver(s, next, ds).log == s.log + Numbers(next, if failed then |attempts| - 1 else |attempts|)
  {
    BodyReadsLedger(ledger, next, n, end, decode);
    var ds := seq(|attempts|, k requires 0 <= k < |attempts| => Delivery(accepts(k), writes(k)));
    DeliverUntil(s, next, ds, if failed then |attempts| - 1 else |attempts|);
  }
}
