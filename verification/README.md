# ChronoPay verification

A Dafny model of the stateful and recursive cores of the ChronoPay backend, with machine-checked
properties over all inputs, all runs and all interleavings. Code that changes state in the original
is a class or a method with loops here, proved equal to functions on values; the theorems are lemmas
about those functions. `dafny verify dfyconfig.toml` checks everything.

| file | models |
|---|---|
| `RoleHierarchy.dfy` | the memoised depth-first search that closes the role implications |
| `IdempotencyProtocol.dfy` | concurrent requests racing on one idempotency key |
| `SseFraming.dfy`, `SseNewlines.dfy`, `StreamResume.dfy` | event-stream framing (sections 9.2.5 and 9.2.6 of the WHATWG HTML Standard), what carriage returns do to it, and resuming from a stored cursor |
| `RolloutSchedules.dfy`, `RolloutRegistry.dfy` | the rollout state machine, its audit history and its registry |
| `FacetCounts.dfy` | incremental facet counts against a full recount |
| `Migrations.dfy`, `MigrationDrift.dfy` | transactional up and down migrations with faults; the drift check |
| `WalIntegrity.dfy` | the WAL archive check |
| `ResourceDiff.dfy`, `ResourcePatch.dfy` | the recursive resource diff, and exactly when it restores the new object |
| `TtlLruCache.dfy` | the expiring least-recently-used cache |
| `SloMetrics.dfy` | bucketed error-budget windows |
| `TransactionPaging.dfy` | cursor-chained paging of a growing ledger |
| `HorizonTokenBucket.dfy` | the rate-limit scheduler with its queue |
| `HorizonHosts.dfy` | host quarantine and failover |
| `StellarAmounts.dfy` | printing and parsing stroops, the slippage guard |
| `Results.dfy`, `JsText.dfy`, `Decimal.dfy`, `Sequences.dfy`, `FiniteSets.dfy` | shared values, strings, decimals, sequences, set sizes |

Clocks, the network, Redis, Postgres, the file system, handlers and random numbers are parameters:
every theorem holds for all values they can return and for their failures, with the exceptions named
at the end.

## Where the code and its description differ

The model follows the code. Each point below is a proved statement.

- `resumeAfter` is described as applying to the first connection; it is used on every reconnect, so
  one disconnect redelivers everything (`StreamResume.ResumeAfterRedelivers`), and events are handled
  exactly once in exactly the runs in which no connection rewinds
  (`StreamResume.OnceExactlyWhenNotRewinding`).
- A failing cursor read falls back to "now", which skips events in exactly the runs in which the
  ledger is ahead at that moment (`StreamResume.SkipsExactlyWhenJumping`), by any number of events
  (`StreamResume.UnreadableCursorSkips`).
- Frames are cut before newlines are normalised. The frames are those of the normalised text exactly
  when no piece holds "\n\r\n" and no piece but the last ends in a carriage return
  (`SseNewlines.FramesAgreeExactly`); a text with CRLF newlines only is never cut
  (`SseNewlines.CrlfBlankLinesDoNotSplit`).
- An idempotency key protects one lifetime of its entry: the handler can run once more per expiry, and
  that bound is reached (`IdempotencyProtocol.EveryRunIsSafe`, `IdempotencyProtocol.BoundIsReached`).
- A key whose SET NX reply is lost, or whose final SET fails, is left under processing with nobody to
  finish it (`IdempotencyProtocol.LostReplySticks`, `IdempotencyProtocol.FailedSaveSticks`). An entry is
  bound to stay under processing until it expires exactly when no handler runs and no response is
  unsaved (`IdempotencyProtocol.StuckExactly`); it then refuses every request
  (`IdempotencyProtocol.StuckUntilExpiry`).
- The rollout key uses the tenant name as given and the record the trimmed one. Any two spellings of a
  tenant admit two in-flight schedules (`RolloutRegistry.TwoSpellingsSplit`); a set of names is safe
  exactly when no tenant goes by two of them (`RolloutRegistry.OneInFlightExactly`).
- A rating of 5.0 is counted in no range (`FacetCounts.RangesCover`); the running total is exact only
  while the number of slots without a category stays the same (`FacetCounts.TotalAgreesExactly`,
  `FacetCounts.UncategorisedSlotMiscounts`); more
  than 10000 events since a refresh are lost (`FacetCounts.RecentIsCompleteExactly`).
- A COMMIT whose acknowledgement is lost is reported as a failure although it took effect
  (`Migrations.UpStaysInStep`, `Migrations.DownUndoesUp`, `Migrations.LostAckIsNotUndone`).
- Migration ids are compared as text, so the drift check is clean up to 999 applied migrations and
  never beyond (`MigrationDrift.DriftCleanExactlyUpTo999`).
- The WAL check announces that a gap after a partial segment is suppressed; it is not
  (`WalIntegrity.PartialSegmentStillAlarms`). A duplicate
  raises a gap alarm as well, for a run that ends before it starts (`WalIntegrity.RepeatRaisesEmptyGap`):
  all gap alarms of a timeline are real exactly when no number repeats
  (`WalIntegrity.TimelineGapsAreRealExactly`).
- The cache never evicts the empty key, so a step breaks the limit exactly when that key is the oldest
  of a full cache and the new key is not there yet (`TtlLruCache.RoomIsEnough`). While the empty
  key is unread and no entry expires, each further new key adds an entry, whatever the limit
  (`TtlLruCache.EmptyKeyOverflows`, `TtlLruCache.OverflowHappens`).
- A burn rate above one is meant to show a missed objective. In doubles `1 - 0.9999` comes out too small,
  so `checkout` also exceeds one when it meets its objective without a request to spare; the other
  routes do not (`SloMetrics.AboveOneExactly`, `SloMetrics.CheckoutAlarmsWhenMet`).
- A token bucket settles after each update for initial capacities from -1 on and for no lower one
  (`HorizonTokenBucket.SettlesExactlyFromMinusOne`).
- Requests that wait for a token are described as released once the window has reset. Arrivals and
  time release nobody; waiters leave exactly at an update or the end of a backoff
  (`HorizonTokenBucket.WaitersLeaveExactlyAtRelease`, `HorizonTokenBucket.ElapsedResetReleasesNobody`).
- A reported field names its path exactly when no key holds a dot and no further key follows an empty
  first one (`ResourceDiff.FieldNamesPath`). The diff restores the new object exactly when every
  difference has such a field (`ResourcePatch.PatchRestoresExactly`); two different changes can leave
  the same record (`ResourceDiff.DottedKeysAreAmbiguous`).
- A printed negative amount cannot be parsed (`StellarAmounts.PrintThenParse`); the slippage guard
  rounds up instead of down for tolerances above 100 percent (`StellarAmounts.GuardRoundsDown`,
  `StellarAmounts.GuardRoundsUp`).

## Model

| member | source | states |
|---|---|---|
| `RoleHierarchy.BuildRoleHierarchy` | src/middleware/rbac.ts:94-165 | terminates on every configuration; succeeds exactly when every entry is well formed, every implied role is declared and the implication graph has no cycle; then maps each role to exactly the roles reachable from it; each error is justified by the configuration |
| `RoleHierarchy.ReadEntries` | src/middleware/rbac.ts:99-112 | stops at the first bad entry, otherwise yields the implication map, later duplicates of a normalised name winning, in key order |
| `RoleHierarchy.ReadUpToStops` | src/middleware/rbac.ts:101-109 | no error exactly when no entry is bad, and an error names a bad entry |
| `RoleHierarchy.FindUndeclared` | src/middleware/rbac.ts:114-120 | finds nothing exactly when every implied role is declared, otherwise a role and an undeclared role it implies |
| `RoleHierarchy.Resolver.Resolve` | src/middleware/rbac.ts:126-150 | returns the reachable roles and restores the visiting set, or reports a path of the graph that closes a cycle; the measure is the number of roles not on the path |
| `RoleHierarchy.Resolver.ResolveImplied` | src/middleware/rbac.ts:138-144 | the union over the implied roles is exactly what is reachable |
| `RoleHierarchy.Resolver.Complete` | src/middleware/rbac.ts:146-149 | the memo stays correct and the completion order topological |
| `RoleHierarchy.ResolveAll` | src/middleware/rbac.ts:152-165 | succeeds exactly on acyclic graphs, with the reachability closure |
| `RoleHierarchy.ReachUnfold` | src/middleware/rbac.ts:138-144 | reachability by walks is the role itself or reachability from an implied role |
| `RoleHierarchy.GatheredIsReach` | src/middleware/rbac.ts:138-144 | what the loop over implied roles gathers is exactly reachability |
| `RoleHierarchy.LassoIsCycle` | src/middleware/rbac.ts:131-135 | a reported path is a real cycle |
| `RoleHierarchy.TopologicalIsAcyclic` | src/middleware/rbac.ts:146-148 | a graph whose roles can all be completed has no cycle |
| `RoleHierarchy.RoleSatisfiesIsPartialOrder` | src/middleware/rbac.ts:173-179 | on every built hierarchy `roleSatisfies` is reflexive exactly on known roles, transitive and antisymmetric |
| `IdempotencyProtocol.EveryRunIsSafe` | src/middleware/idempotency.ts:83-169 | in every interleaving the handler runs at most once plus once per expiry, and each cached reply was produced by a request with the same hash |
| `IdempotencyProtocol.AtMostOnceWithoutExpiry` | src/middleware/idempotency.ts:83-169 | without expiry at most one request reaches the handler and each cached reply carries its status and body, for its hash only |
| `IdempotencyProtocol.BoundIsReached` | src/middleware/idempotency.ts:120-143 | for every number of expiries some interleaving reaches the bound |
| `IdempotencyProtocol.FinishedEntryIsFinal` | src/middleware/idempotency.ts:87-118 | until expiry a finished entry never changes, no handler runs, the same hash gets the stored reply and any other is refused |
| `IdempotencyProtocol.FinishedSettles` | src/middleware/idempotency.ts:147-167 | every run that reaches a finished entry without expiry is in that settled state |
| `IdempotencyProtocol.StuckUntilExpiry` | src/middleware/idempotency.ts:87-138 | while a processing entry has no running handler and no unsaved response, every run without expiry keeps the entry and the handler calls, and every new answer is a refusal or a store failure |
| `IdempotencyProtocol.StuckExactly` | src/middleware/idempotency.ts:83-169 | a processing entry keeps its value in every run without expiry exactly when it is stuck in this way |
| `IdempotencyProtocol.StepStaysStuck` | src/middleware/idempotency.ts:87-138 | every step other than expiry keeps a stuck entry stuck |
| `IdempotencyProtocol.CanFinish` | src/middleware/idempotency.ts:147-167 | any other processing entry can be finished without expiry |
| `IdempotencyProtocol.LostReplySticks` | src/middleware/idempotency.ts:125-131 | a SET NX that takes effect and loses its reply leaves the key stuck before the handler ever ran |
| `IdempotencyProtocol.FailedSaveSticks` | src/middleware/idempotency.ts:155-164 | a failing final SET leaves the key stuck after the handler ran |
| `IdempotencyProtocol.StepKeepsInv` | src/middleware/idempotency.ts:83-169 | every step of every request keeps the protocol invariant |
| `IdempotencyProtocol.RunKeepsInv` | src/middleware/idempotency.ts:83-169 | every run keeps it |
| `IdempotencyProtocol.RepliesStayProduced` | src/middleware/idempotency.ts:104-117 | stored and replayed replies keep coming from a handler run with the same hash |
| `IdempotencyProtocol.RunnersStay` | src/middleware/idempotency.ts:125-143 | the recorded runs stay distinct and are exactly the requests that are running or have answered from the handler |
| `IdempotencyProtocol.WritersStayDone` | src/middleware/idempotency.ts:147-167 | without expiry a finished entry leaves no request that could still overwrite it |
| `IdempotencyProtocol.ProducedIsStable` | src/middleware/idempotency.ts:147-167 | no step takes back a produced reply |
| `SseFraming.RunSseConnection` | src/clients/horizon-contract-client.ts:489-587 | however the text is cut into chunks, the handler sees the events of the whole text split at blank lines, in order, up to the first it rejects; an abort drops the unfinished rest |
| `SseFraming.DeliverFrames` | src/clients/horizon-contract-client.ts:563-568 | delivers the events of the frames until one is rejected |
| `SseFraming.SplitAppend` | src/clients/horizon-contract-client.ts:559-561 | splitting a longer text keeps all finished pieces and re-splits only the last |
| `SseFraming.FramedGrows` | src/clients/horizon-contract-client.ts:559-561 | finished frames plus the buffer always are the split of the text so far |
| `SseFraming.EarlierFramesFirst` | src/clients/horizon-contract-client.ts:559-568 | events of finished frames come first in the whole text |
| `SseFraming.ReferenceAtEnd` | src/clients/horizon-contract-client.ts:571-576 | at the end only a non-empty buffer adds an event |
| `SseFraming.ParseSseFrame` | src/clients/horizon-contract-client.ts:430-464 | the line loop yields the event of the frame's last event name and its data lines |
| `SseFraming.RenderedFrameParses` | src/clients/horizon-contract-client.ts:430-464 | a written frame parses back to its event |
| `SseFraming.StreamRoundTrip` | src/clients/horizon-contract-client.ts:528-576 | events written as frames and read back are the same events |
| `SseFraming.CutStreamDeliversPrefix` | src/clients/horizon-contract-client.ts:528-576 | wherever the text of sent events is cut, the events read, leftover buffer included, are a first part of those sent, given data whose proper beginnings do not decode |
| `SseNewlines.CrlfBlankLinesDoNotSplit` | src/clients/horizon-contract-client.ts:559-564 | a text whose every newline is a CRLF is one piece |
| `SseNewlines.FramesAgreeExactly` | src/clients/horizon-contract-client.ts:559-564 | splitting first and normalising each piece equals splitting the normalised text exactly when no piece hides a blank line and none but the last ends in a carriage return |
| `SseNewlines.HiddenBlankShows` | src/clients/horizon-contract-client.ts:564 | normalising a piece uncovers a blank line exactly where "\n\r\n" stood |
| `StreamResume.StreamEvents` | src/clients/horizon-contract-client.ts:852-939 | the reconnect loop on a shared cursor store does exactly the specified run and touches no other stream's cursor |
| `StreamResume.DeliverAll` | src/clients/horizon-contract-client.ts:921-924 | each event is handled before its cursor is saved; a rejected event ends the connection unsaved |
| `StreamResume.CursorStore.constructor` | src/clients/cursor-store.ts:49-50 | starts empty |
| `StreamResume.CursorStore.Set` | src/clients/cursor-store.ts:56-58 | the key reads back the cursor and no other key changes |
| `StreamResume.CursorStore.Delete` | src/clients/cursor-store.ts:60-62 | the key is gone and no other key changes |
| `StreamResume.NeverSkips` | src/clients/horizon-contract-client.ts:852-957 | with readable cursors, over every run of refused connections, cut bodies, handler failures and failed writes, the handled events are exactly a contiguous block after the start, first handled in order, and every written cursor lies in it |
| `StreamResume.SkipsExactlyWhenJumping` | src/clients/horizon-contract-client.ts:876-883 | with failing reads too, events are skipped exactly in the runs in which a connection falls back to "now" behind the ledger |
| `StreamResume.UnreadableCursorSkips` | src/clients/horizon-contract-client.ts:876-883 | one unreadable cursor while the ledger is any number of events ahead loses all of them |
| `StreamResume.ExactlyOnceWithDurableStore` | src/clients/horizon-contract-client.ts:852-957 | with no failed store access and no `resumeAfter` every event is handled exactly once and in order |
| `StreamResume.OnceExactlyWhenNotRewinding` | src/clients/horizon-contract-client.ts:876-924 | with readable cursors that happens exactly in the runs in which no connection starts before the last handled event |
| `StreamResume.ResumeAfterRedelivers` | src/clients/horizon-contract-client.ts:878 | with `resumeAfter` a disconnect after n events makes all n come again |
| `StreamResume.DeliverKeepsOrder` | src/clients/horizon-contract-client.ts:919-924 | one connection keeps order and keeps the stored cursor behind the handler |
| `StreamResume.InOrderIsContiguous` | src/clients/horizon-contract-client.ts:919-924 | events first handled in order are exactly a contiguous block |
| `StreamResume.BodyReadsLedger` | src/clients/horizon-contract-client.ts:921-924 | any beginning of the ledger's text after a cursor reads as the events after it, in order |
| `StreamResume.ConnectionMatchesModel` | src/clients/horizon-contract-client.ts:921-924 | the attempts of the framing loop on such a text are the numbered events of the resume protocol, and the logged ones are exactly those accepted |
| `RolloutSchedules.ValidateSteps` | src/flags/rolloutScheduleRegistry.ts:106-136 | accepts exactly the step lists with integer percentages in 1..100, parseable times and both strictly increasing |
| `RolloutSchedules.ComputeDueStepIndex` | src/flags/rolloutScheduleRegistry.ts:68-78 | the loop counts the leading due steps |
| `RolloutSchedules.DueIndexIsLatest` | src/flags/rolloutScheduleRegistry.ts:67-78 | on validated steps that is the one index of the latest due step |
| `RolloutSchedules.DueIndexMonotone` | src/flags/rolloutScheduleRegistry.ts:68-78 | it never falls as time passes |
| `RolloutSchedules.MissedTicksLeaveNoTrace` | src/flags/rolloutScheduleRegistry.ts:262-346 | after any ticks, pauses and resumes the step is the latest due at the latest effective time, and percentage and status follow from it |
| `RolloutSchedules.PauseIsTransparent` | src/flags/rolloutScheduleRegistry.ts:284-346 | pausing, missing any ticks and resuming at a time, by any two actors, gives the step, percentage and status of a plain tick at that time |
| `RolloutSchedules.RunStaysOnTrack` | src/flags/rolloutScheduleRegistry.ts:266-346 | every run keeps the step equal to the one due |
| `RolloutSchedules.CatchUpReachesDue` | src/flags/rolloutScheduleRegistry.ts:159-171 | catching up reaches the step due at the later time in one jump |
| `RolloutSchedules.NewScheduleOk` | src/flags/rolloutScheduleRegistry.ts:189-212 | a new schedule is consistent |
| `RolloutSchedules.TickKeepsOk` | src/flags/rolloutScheduleRegistry.ts:266-282 | a tick keeps status, percentage and history consistent; advanced entries strictly increase |
| `RolloutSchedules.PauseKeepsOk` | src/flags/rolloutScheduleRegistry.ts:284-310 | so does a pause |
| `RolloutSchedules.ResumeKeepsOk` | src/flags/rolloutScheduleRegistry.ts:318-346 | so does a resume with its catch-up |
| `RolloutSchedules.RollbackKeepsOk` | src/flags/rolloutScheduleRegistry.ts:354-394 | so does a rollback, which ends the history and strictly lowers the percentage |
| `RolloutSchedules.PausedIgnoresTicks` | src/flags/rolloutScheduleRegistry.ts:270-273 | ticks leave a paused schedule as it is |
| `RolloutSchedules.NeverStepsDown` | src/flags/rolloutScheduleRegistry.ts:266-346 | ticks, pauses and resumes never lower the percentage |
| `RolloutSchedules.ComputeBucket` | src/flags/rolloutEvaluator.ts:33-40 | the loop computes the 32-bit FNV-1a hash of the UTF-16 code units, reduced to 0..99 |
| `RolloutSchedules.AudienceGrowsByBuckets` | src/flags/rolloutEvaluator.ts:42-46 | a larger percentage keeps everybody and adds exactly the buckets between the two |
| `RolloutSchedules.RampIsSticky` | src/flags/rolloutEvaluator.ts:42-46 | whoever is in at some point of a run without rollback stays in |
| `RolloutRegistry.ReachableStatesAreConsistent` | src/flags/rolloutScheduleRegistry.ts:141-394 | in every reachable state all schedules and histories are consistent, ids unique, and each in-flight schedule is the one its key points to |
| `RolloutRegistry.OneInFlightPerTuple` | src/flags/rolloutScheduleRegistry.ts:173-260 | with trimmed tenants at most one schedule per flag, tenant and environment is in flight in every reachable state, and look-up finds it |
| `RolloutRegistry.OneInFlightExactly` | src/flags/rolloutScheduleRegistry.ts:173-260 | over every set of tenant names, no run of commands that uses them puts two schedules of one flag, tenant and environment in flight, exactly when no two of the names trim to the same tenant |
| `RolloutRegistry.RunKeepsNames` | src/flags/rolloutScheduleRegistry.ts:176-194 | in every reachable state each key was built from one of the names that callers used, and its schedule stores that name trimmed |
| `RolloutRegistry.TwoSpellingsSplit` | src/flags/rolloutScheduleRegistry.ts:176-194 | for any two spellings of a tenant two commands put two schedules in flight |
| `RolloutRegistry.KeyIsInjective` | src/flags/rolloutScheduleRegistry.ts:147-149 | different flag, environment and tenant triples have different keys |
| `RolloutRegistry.NextKeepsInv` | src/flags/rolloutScheduleRegistry.ts:173-394 | every command keeps the registry invariant |
| `RolloutRegistry.CreateAdds` | src/flags/rolloutScheduleRegistry.ts:173-217 | a successful create adds one consistent pending schedule under its key |
| `RolloutRegistry.RolloutScheduleRegistry.constructor` | src/flags/rolloutScheduleRegistry.ts:141-145 | starts empty and reachable |
| `RolloutRegistry.RolloutScheduleRegistry.Create` | src/flags/rolloutScheduleRegistry.ts:173-217 | creates exactly when the input is valid and no in-flight schedule holds the key; otherwise nothing changes |
| `RolloutRegistry.RolloutScheduleRegistry.AdvanceDue` | src/flags/rolloutScheduleRegistry.ts:266-282 | ticks every schedule and returns those that moved, in map order |
| `RolloutRegistry.RolloutScheduleRegistry.PauseById` | src/flags/rolloutScheduleRegistry.ts:284-310 | pauses that schedule only, with the specified errors |
| `RolloutRegistry.RolloutScheduleRegistry.ResumeById` | src/flags/rolloutScheduleRegistry.ts:318-346 | resumes that schedule only, with the specified errors |
| `RolloutRegistry.RolloutScheduleRegistry.RollbackById` | src/flags/rolloutScheduleRegistry.ts:354-394 | rolls back that schedule only, with the specified errors |
| `RolloutRegistry.TickSchedule` | src/flags/rolloutScheduleRegistry.ts:270-279 | one iteration of the loop ticks its schedule |
| `RolloutRegistry.GoverningScheduleFits` | src/flags/rolloutEvaluator.ts:53-61 | in reachable states the percentage lies in 0..100 and comes from a schedule for this flag and environment and this tenant or all tenants; 100 by default exactly when neither key was used |
| `FacetCounts.IncrementalEqualsRecount` | src/cache/facetCountsCache.ts:147-252 | folding truthful events over agreeing counts agrees with a recount of the resulting slots, and no clamp at zero ever fires |
| `FacetCounts.ApplyMoves` | src/cache/facetCountsCache.ts:171-252 | each counter moves by exactly what the event takes out and puts in |
| `FacetCounts.TruthfulIsCovered` | src/cache/facetCountsCache.ts:182-215 | a truthful event finds every counter it lowers above zero |
| `FacetCounts.ApplyAgrees` | src/cache/facetCountsCache.ts:171-252 | one truthful event keeps counts and slots in agreement |
| `FacetCounts.TotalAgreesExactly` | src/cache/facetCountsCache.ts:182-194 | the total stays the number of slots exactly when as many are without a category as before |
| `FacetCounts.UncategorisedSlotMiscounts` | src/cache/facetCountsCache.ts:182-194 | creating a slot without a category leaves the total one short |
| `FacetCounts.RangesCover` | src/cache/facetCountsCache.ts:35-49 | a price is in one range exactly when not negative, a rating exactly when in 0 up to but excluding 5 |
| `FacetCounts.CountRows` | src/cache/facetCountsCache.ts:333-345 | the counting loop fills each range with the number of its rows |
| `FacetCounts.RowCountIsRecount` | src/cache/facetCountsCache.ts:333-345 | counting the rows of all priced or rated slots is the reference recount |
| `FacetCounts.RecentIsCompleteExactly` | src/cache/facetCountsCache.ts:85-94 | the bounded log still holds all events since a refresh exactly when there are at most 10000 |
| `FacetCounts.CountsEntry.CopyOf` | src/cache/facetCountsCache.ts:153-158 | a deep copy with fresh counters |
| `FacetCounts.CountsEntry.DecrementCategory` | src/cache/facetCountsCache.ts:182-187 | lowers the category and the total, clamped, only for a known category |
| `FacetCounts.CountsEntry.IncrementCategory` | src/cache/facetCountsCache.ts:189-194 | raises the category and the total |
| `FacetCounts.CountsEntry.ApplyToCategories` | src/cache/facetCountsCache.ts:224-251 | the category part of the event switch |
| `FacetCounts.ApplyToRanges` | src/cache/facetCountsCache.ts:196-250 | the price or rating part of the event switch, in place |
| `FacetCounts.CountsEntry.ApplySingleEvent` | src/cache/facetCountsCache.ts:171-252 | the event in place equals the event on values |
| `FacetCounts.CountsEntry.ApplyEvents` | src/cache/facetCountsCache.ts:160-162 | the event loop in place equals the fold on values |
| `FacetCounts.FacetCountsCache.constructor` | src/cache/facetCountsCache.ts:66-68 | starts with an empty log |
| `FacetCounts.FacetCountsCache.RecordWriteEvent` | src/cache/facetCountsCache.ts:85-94 | keeps the last 10000 of all recorded events |
| `FacetCounts.FacetCountsCache.ApplyWriteEvents` | src/cache/facetCountsCache.ts:147-169 | folds the recent events over a fresh copy and never changes the cached base; the refresh time is the latest seen |
| `Migrations.AlwaysAtSomeStep` | src/db/migrationRunner.ts:159-226 | over every sequence of ups and downs with failing connections, BEGINs, bodies and COMMITs anywhere, applied stays a prefix of the registered list and the schema is the fold of that prefix |
| `Migrations.UpStaysInStep` | src/db/migrationRunner.ts:159-187 | `up` ends at a step moved by exactly the reported migrations, the next ones in order, plus one exactly when a COMMIT took effect unacknowledged |
| `Migrations.DownStaysInStep` | src/db/migrationRunner.ts:197-226 | the same backwards for `down` |
| `Migrations.DownUndoesUp` | src/db/migrationRunner.ts:159-226 | rolling back what `up` reports restores the database exactly when no COMMIT went unacknowledged, and one more step restores it otherwise |
| `Migrations.LostAckIsNotUndone` | src/db/migrationRunner.ts:159-226 | when the first COMMIT takes effect unacknowledged, nothing is reported and rolling back what was reported does not restore the database |
| `Migrations.DownGoesBack` | src/db/migrationRunner.ts:197-226 | without faults `down(n)` goes back exactly n steps |
| `Migrations.PendingIsRest` | src/db/migrationRunner.ts:161-164 | at step k the pending migrations are those from k on |
| `Migrations.AppliedIsPrefix` | src/db/migrationRunner.ts:202-206 | at step k the rollback candidates are the first k, latest first |
| `Migrations.UpLoop` | src/db/migrationRunner.ts:171-184 | the loop moves one step per completed migration and stops only at a fault |
| `Migrations.DownLoop` | src/db/migrationRunner.ts:210-223 | the same backwards |
| `Migrations.Database.WithTransaction` | src/db/connection.ts:208-242 | all of the body's changes or none, and success only if committed |
| `Migrations.MigrationRunner.RunUntilFailure` | src/db/migrationRunner.ts:171-184 | runs migrations in order until the first failure and reports exactly those before it and the failed one |
| `Migrations.MigrationRunner.RunUpwards` | src/db/migrationRunner.ts:159-187 | applies the pending list, cut to the count |
| `Migrations.MigrationRunner.RunDownwards` | src/db/migrationRunner.ts:197-226 | rolls back the applied list, latest first, cut to the count |
| `MigrationDrift.DetectDrift` | src/db/driftDetector.ts:25-64 | the loop reports each row's error and warning in order, and drift exactly when there is an error |
| `MigrationDrift.CleanIffPrefix` | src/db/driftDetector.ts:25-64 | with distinct ids neither errors nor warnings exactly when applied is a prefix of registered |
| `MigrationDrift.RowIsInPlace` | src/db/driftDetector.ts:31-57 | a row is clean exactly when it is the registered migration of its position |
| `MigrationDrift.ValidateMigrationOrder` | src/db/driftDetector.ts:74-115 | no error exactly when the ids are 001, 002, 003 and so on |
| `MigrationDrift.DriftCleanExactlyUpTo999` | src/db/driftDetector.ts:25-115 | for a validated list, the ordered table of a reached state is clean exactly with at most 999 applied |
| `MigrationDrift.ThousandthIsOutOfOrder` | src/db/driftDetector.ts:74-115 | the thousandth id sorts before its predecessor |
| `WalIntegrity.Check` | ops/wal/walIntegrityChecker.ts:295-511 | healthy exactly when listing succeeded, no two files share a position, every timeline is consecutive, every hash was computed and no sidecar contradicts one; alarms pinpoint duplicates and missing runs; corrupt segments equal mismatch alarms |
| `WalIntegrity.CheckSegments` | ops/wal/walIntegrityChecker.ts:328-508 | no critical alarm exactly when the archive is intact |
| `WalIntegrity.OneAlarmPerMissingRun` | ops/wal/walIntegrityChecker.ts:357-392 | on a duplicate-free timeline each maximal missing run has exactly one gap alarm and nothing else has one |
| `WalIntegrity.PartialSegmentStillAlarms` | ops/wal/walIntegrityChecker.ts:372-391 | the run missing right after a partial segment of a duplicate-free timeline has its gap alarm |
| `WalIntegrity.GapsAreMissingRuns` | ops/wal/walIntegrityChecker.ts:372-391 | the scan of a strictly sorted timeline raises exactly the maximal missing runs |
| `WalIntegrity.RepeatRaisesEmptyGap` | ops/wal/walIntegrityChecker.ts:372-391 | a repeated number n raises the alarm for n + 1 through n - 1, which is no missing run |
| `WalIntegrity.GapsAreRealExactly` | ops/wal/walIntegrityChecker.ts:372-391 | every alarm of a sorted timeline is a missing run exactly when nothing repeats |
| `WalIntegrity.TimelineGapsAreRealExactly` | ops/wal/walIntegrityChecker.ts:366-392 | the same for a timeline of the archive |
| `WalIntegrity.NoGapsMeans` | ops/wal/walIntegrityChecker.ts:372-391 | a sorted timeline raises nothing exactly when it has neither repeats nor holes |
| `WalIntegrity.QuietTimeline` | ops/wal/walIntegrityChecker.ts:367-392 | a timeline of the archive raises nothing exactly when its numbers are distinct and consecutive |
| `WalIntegrity.SortKeeps` | ops/wal/walIntegrityChecker.ts:368-370 | sorting keeps which numbers are present and whether one repeats |
| `WalIntegrity.GroupByTimeline` | ops/wal/walIntegrityChecker.ts:358-364 | groups the numbers of each timeline in listing order |
| `WalIntegrity.ScanTimeline` | ops/wal/walIntegrityChecker.ts:372-391 | raises one alarm per pair of neighbours not one apart |
| `WalIntegrity.DetectGaps` | ops/wal/walIntegrityChecker.ts:366-392 | raises each timeline's alarms, each as often as its scan does |
| `WalIntegrity.GroupByPosition` | ops/wal/walIntegrityChecker.ts:329-335 | groups the file names of each position in listing order |
| `WalIntegrity.DetectDuplicates` | ops/wal/walIntegrityChecker.ts:328-355 | silent exactly without duplicates; otherwise names exactly the shared positions and the files sharing them |
| `WalIntegrity.NoDuplicatesByTimeline` | ops/wal/walIntegrityChecker.ts:328-364 | no shared position exactly when every timeline's numbers are distinct |
| `WalIntegrity.Examine` | ops/wal/walIntegrityChecker.ts:395-507 | a segment raises a critical alarm exactly when its hash failed or a sidecar differs after trimming and lower-casing |
| `WalIntegrity.HashSegments` | ops/wal/walIntegrityChecker.ts:395-508 | one result per segment in order and all their alarms |
| `WalIntegrity.AllHashAlarmsMean` | ops/wal/walIntegrityChecker.ts:395-508 | no critical hash alarm exactly when every hash is in order |
| `WalIntegrity.HealthyMeansNoCritical` | ops/wal/walIntegrityChecker.ts:531-536 | healthy exactly when no alarm is critical |
| `WalIntegrity.CorruptAreMismatches` | ops/wal/walIntegrityChecker.ts:517-519 | as many corrupt segments as mismatch alarms |
| `WalIntegrity.ParseAll` | ops/wal/walIntegrityChecker.ts:316-326 | keeps the segments in listing order and skips sidecars and other files |
| `WalIntegrity.SegmentNameRoundTrip` | ops/wal/walIntegrityChecker.ts:262-276 | every position printed in either width, partial or not, parses back to itself |
| `ResourceDiff.Differ.Walk` | src/middleware/impersonationRecorder.ts:135-171 | appends every difference below the prefix exactly once with both values, whatever the key order |
| `ResourceDiff.Differ.constructor` | src/middleware/impersonationRecorder.ts:131 | starts with no entries |
| `ResourceDiff.ComputeDiff` | src/middleware/impersonationRecorder.ts:110-174 | for two objects a diff of them; with a null side one entry for the whole value, or none if both are null |
| `ResourceDiff.EmptyExactlyWhenEqual` | src/middleware/impersonationRecorder.ts:110-174 | the diff is empty exactly when the objects are equal |
| `ResourceDiff.EntriesAreReal` | src/middleware/impersonationRecorder.ts:158-168 | every entry records two different values |
| `ResourceDiff.FieldNamesPath` | src/middleware/impersonationRecorder.ts:142 | splitting a reported field at its dots gives back the path exactly when no key holds a dot and an empty first key stands alone |
| `ResourceDiff.FieldsDoNotNest` | src/middleware/impersonationRecorder.ts:135-171 | no reported field equals another or lies above it |
| `ResourceDiff.SetRepairsOne` | src/middleware/impersonationRecorder.ts:135-171 | setting one reported value removes that difference and no other |
| `ResourceDiff.PatchRestores` | src/middleware/impersonationRecorder.ts:110-174 | when every difference has a field that names it, applying the diff to before yields after, in any order |
| `ResourceDiff.DotFreeKeysAreNamed` | src/middleware/impersonationRecorder.ts:142 | dot-free keys, not empty at the top, give every difference a field that names it |
| `ResourceDiff.SwappedUndoes` | src/middleware/impersonationRecorder.ts:110-174 | the diff with its values exchanged is the diff back and restores before |
| `ResourceDiff.DottedKeysAreAmbiguous` | src/middleware/impersonationRecorder.ts:142 | for all keys and values, a dotted key and the nested keys it spells leave the same entry |
| `ResourcePatch.PatchRestoresExactly` | src/middleware/impersonationRecorder.ts:110-174 | for all objects and any key order, applying the diff to before yields after exactly when every difference has a field that names its path |
| `ResourcePatch.SwappedUndoesExactly` | src/middleware/impersonationRecorder.ts:110-174 | the exchanged diff restores before on the same condition |
| `ResourcePatch.FieldReads` | src/middleware/impersonationRecorder.ts:142 | a field read back is the path without its leading empty keys, each key split at its dots |
| `ResourcePatch.DottedKeyBlocks` | src/middleware/impersonationRecorder.ts:135-171 | a difference at or below a dotted key is not restored, if no difference lies below an empty key at the top |
| `ResourcePatch.EmptyKeyBlocks` | src/middleware/impersonationRecorder.ts:135-171 | a difference below an empty key at the top is never restored |
| `TtlLruCache.InMemoryCache.constructor` | src/cache/inMemoryCache.ts:29-41 | starts empty and valid |
| `TtlLruCache.InMemoryCache.Create` | src/cache/inMemoryCache.ts:29-41 | succeeds exactly for positive lifetime and size |
| `TtlLruCache.InMemoryCache.Get` | src/cache/inMemoryCache.ts:43-57 | a hit is the latest value stored and unexpired; a miss means none was stored since invalidation, it expired, or at least `maxEntries` other keys were used since |
| `TtlLruCache.InMemoryCache.Set` | src/cache/inMemoryCache.ts:59-77 | refuses non-positive lifetimes unchanged; else exactly the new entry is added, and only expired entries and, if the key is new and the store still full, the oldest with a non-empty key are gone; reads the clock once per entry held and once more |
| `TtlLruCache.InMemoryCache.MakeRoom` | src/cache/inMemoryCache.ts:64-68 | expired entries go first, the least recently used only if still full |
| `TtlLruCache.InMemoryCache.EvictExpiredEntries` | src/cache/inMemoryCache.ts:130-136 | removes only expired entries and all that were expired at the start, with one clock reading per entry |
| `TtlLruCache.InMemoryCache.EvictLeastRecentlyUsed` | src/cache/inMemoryCache.ts:138-152 | removes the one oldest entry unless its key is empty |
| `TtlLruCache.InMemoryCache.Invalidate` | src/cache/inMemoryCache.ts:96-98 | removes the key and says whether it was there |
| `TtlLruCache.InMemoryCache.InvalidateByPrefix` | src/cache/inMemoryCache.ts:100-111 | removes exactly the keys with the prefix and counts them |
| `TtlLruCache.InMemoryCache.Clear` | src/cache/inMemoryCache.ts:113-115 | removes everything |
| `TtlLruCache.InMemoryCache.Size` | src/cache/inMemoryCache.ts:117-120 | counts what is left after expiry, at most `maxEntries` |
| `TtlLruCache.EveryRunIsSound` | src/cache/inMemoryCache.ts:43-152 | every reachable cache holds only latest values, in the order of their last use, lost others only fairly, and keeps to its limit while the empty key was never stored |
| `TtlLruCache.FoundIsLatest` | src/cache/inMemoryCache.ts:43-57 | in every run what is found is the latest value stored |
| `TtlLruCache.MissedFairly` | src/cache/inMemoryCache.ts:43-57 | in every run what is missed was never stored, dropped, expired or followed by `maxEntries` other keys |
| `TtlLruCache.RunStaysWithinLimit` | src/cache/inMemoryCache.ts:59-77 | in every run without the empty key at most `maxEntries` entries are held |
| `TtlLruCache.EmptyKeyOverflows` | src/cache/inMemoryCache.ts:59-77 | for every sequence of `set` calls for new keys, whatever the limit: if the empty key is the oldest and no entry has expired by the end, all entries stay and each call adds one |
| `TtlLruCache.EmptyKeyFirst` | src/cache/inMemoryCache.ts:59-77 | from an empty cache, calls that start with the empty key hold one entry each until one expires |
| `TtlLruCache.OverflowHappens` | src/cache/inMemoryCache.ts:59-77 | such calls exist for any number of new keys |
| `TtlLruCache.NothingEvicted` | src/cache/inMemoryCache.ts:138-152 | a `set` for a new key removes nothing while the empty key is the oldest and nothing has expired |
| `TtlLruCache.HitKeepsInv` | src/cache/inMemoryCache.ts:55-56 | a hit keeps the cache truthful, ordered, fair and within its limit |
| `TtlLruCache.StoreKeepsInv` | src/cache/inMemoryCache.ts:66-76 | so does storing, with or without eviction |
| `TtlLruCache.ExpiryKeepsInv` | src/cache/inMemoryCache.ts:130-136 | so does expiry |
| `TtlLruCache.DropKeepsInv` | src/cache/inMemoryCache.ts:96-115 | so does invalidation |
| `TtlLruCache.VictimIsOldEnough` | src/cache/inMemoryCache.ts:138-152 | an evicted key saw at least `maxEntries` others used since its own last use |
| `TtlLruCache.RoomIsEnough` | src/cache/inMemoryCache.ts:66-68 | a cache within its limit stays so exactly unless it is full, the key is new and the oldest key is empty |
| `SloMetrics.RouteMetrics.constructor` | src/metrics/sloMetrics.ts:36-39 | starts with no buckets |
| `SloMetrics.RouteMetrics.Record` | src/metrics/sloMetrics.ts:41-58 | adds the request to its minute and prunes beyond six hours |
| `SloMetrics.RouteMetrics.GetBurnRate` | src/metrics/sloMetrics.ts:60-78 | with a non-decreasing clock the rate is that of the full log in the bucketed window; for any rounding to nearest and up to 10^12 requests it exceeds one exactly when they miss the objective or just meet that of checkout |
| `SloMetrics.PrunedCountsAreExact` | src/metrics/sloMetrics.ts:41-70 | for every cutoff within six hours of the last request the pruned buckets give the totals and errors of the full log |
| `SloMetrics.WindowIsExactToOneBucket` | src/metrics/sloMetrics.ts:42-70 | nothing older than the cutoff is counted, everything a bucket newer is, and an aligned cutoff is exact |
| `SloMetrics.AtMost361Buckets` | src/metrics/sloMetrics.ts:53-57 | at most 361 buckets, and 361 only at the start of a minute |
| `SloMetrics.PruningIsInvisible` | src/metrics/sloMetrics.ts:53-57 | pruning removes nothing a later cutoff counts |
| `SloMetrics.ReplayKeepsShape` | src/metrics/sloMetrics.ts:41-58 | buckets start minutes, ascend strictly and lie in the last six hours |
| `SloMetrics.AboveOneExactly` | src/metrics/sloMetrics.ts:72-77 | computed in doubles, the rate exceeds one exactly when the objective is missed, or the route is checkout and its objective is met without a request to spare |
| `SloMetrics.CheckoutAlarmsWhenMet` | src/metrics/sloMetrics.ts:13-18 | n errors in 10000 n checkout requests meet the objective and give a rate above one |
| `SloMetrics.BudgetInDoubles` | src/metrics/sloMetrics.ts:75 | how far `1 - objective` in doubles is from the error budget: below it for checkout, above it for the others |
| `SloMetrics.RateWithin` | src/metrics/sloMetrics.ts:74-77 | the two rounded divisions stay within the square of one rounding error of the exact rate |
| `TransactionPaging.FetchAllTransactionsPaged` | src/clients/horizon-contract-client.ts:1276-1342 | for any server the tokens are distinct and at most `maxRecords`, and the loop terminates; on a growing ledger the result is a contiguous run from the initial cursor that ends at the maximum or at an empty page |
| `TransactionPaging.FetchPage` | src/clients/horizon-contract-client.ts:1292-1315 | retries rate limits only, at most `maxRetries` times |
| `TransactionPaging.AddPage` | src/clients/horizon-contract-client.ts:1322-1334 | adds the records with new tokens up to the maximum and moves the cursor to the last one added |
| `TransactionPaging.AbsorbKeeps` | src/clients/horizon-contract-client.ts:1323-1334 | tokens stay distinct and non-empty and the maximum is kept |
| `TransactionPaging.AbsorbFresh` | src/clients/horizon-contract-client.ts:1323-1334 | of a page of new records exactly the first ones that fit are added |
| `TransactionPaging.PageExtendsRun` | src/clients/horizon-contract-client.ts:1288-1339 | each page of a faithful ledger makes progress and extends the contiguous run |
| `TransactionPaging.FewerLeft` | src/clients/horizon-contract-client.ts:1288-1339 | each productive page decreases the measure |
| `TransactionPaging.AscendingRun` | src/clients/horizon-contract-client.ts:1276-1342 | ascending, the result is everything after the cursor as of the last request, or its first `maxRecords` |
| `TransactionPaging.DescendingRun` | src/clients/horizon-contract-client.ts:1276-1342 | descending, it is everything after the cursor as of the first page, or its first `maxRecords` |
| `HorizonTokenBucket.TokenBucket.constructor` | src/clients/horizon-contract-client.ts:135-141 | ten tokens and two hundred places by default |
| `HorizonTokenBucket.TokenBucket.Acquire` | src/clients/horizon-contract-client.ts:149-179 | passes, queues or rejects as specified |
| `HorizonTokenBucket.TokenBucket.Update` | src/clients/horizon-contract-client.ts:188-198 | applies usable headers and releases exactly the waiters the tokens allow, first come first |
| `HorizonTokenBucket.TokenBucket.BackoffDelay` | src/clients/horizon-contract-client.ts:205-211 | the given delay, else until the reset, else one second |
| `HorizonTokenBucket.TokenBucket.EndBackoff` | src/clients/horizon-contract-client.ts:215-219 | forgets the count and releases the whole queue |
| `HorizonTokenBucket.TokenBucket.Drain` | src/clients/horizon-contract-client.ts:233-252 | the loop releases as many waiters as there are tokens, or all if unknown |
| `HorizonTokenBucket.ReleasedInArrivalOrder` | src/clients/horizon-contract-client.ts:168-252 | in every run the queued waiters are the released ones followed by the queue: in arrival order, each once |
| `HorizonTokenBucket.QueueStaysBounded` | src/clients/horizon-contract-client.ts:168-178 | the queue never exceeds its depth |
| `HorizonTokenBucket.TokensStayKnownOrUnknown` | src/clients/horizon-contract-client.ts:149-252 | from capacities of at least -1 the count never falls below -1 and is positive only with an empty queue |
| `HorizonTokenBucket.SettlesExactlyFromMinusOne` | src/clients/horizon-contract-client.ts:135-252 | every update and backoff of every run leaves the queue empty or no token exactly for those capacities, unless nobody can queue |
| `HorizonTokenBucket.WindowConservesTokens` | src/clients/horizon-contract-client.ts:149-252 | until the count is refreshed, requests passed plus tokens left are constant |
| `HorizonTokenBucket.HeaderBoundsPasses` | src/clients/horizon-contract-client.ts:149-252 | after a header value r at most r requests pass until then |
| `HorizonTokenBucket.OvertakesExactlyWhenUnknownOrReset` | src/clients/horizon-contract-client.ts:151-166 | a newcomer overtakes a waiting queue exactly when the count is unknown or the reset time has passed |
| `HorizonTokenBucket.WaitersLeaveExactlyAtRelease` | src/clients/horizon-contract-client.ts:149-252 | a step releases waiters exactly when it is an update or the end of a backoff that leaves tokens or an unknown count |
| `HorizonTokenBucket.ArrivalsReleaseNobody` | src/clients/horizon-contract-client.ts:149-179 | no run of arrivals releases anybody |
| `HorizonTokenBucket.ElapsedResetReleasesNobody` | src/clients/horizon-contract-client.ts:159-166 | after the reset time every newcomer passes and the queue stays as it is |
| `HorizonHosts.HorizonHostManager.constructor` | src/clients/horizon-host-manager.ts:42-57 | every host healthy, one trailing slash stripped |
| `HorizonHosts.HorizonHostManager.Create` | src/clients/horizon-host-manager.ts:42-57 | refuses exactly the empty list |
| `HorizonHosts.HorizonHostManager.GetHealthyHost` | src/clients/horizon-host-manager.ts:65-109 | probes the hosts whose cooldown is over, then returns the first healthy host in list order, or fails exactly when there is none |
| `HorizonHosts.HorizonHostManager.RecordSuccess` | src/clients/horizon-host-manager.ts:111-121 | readmits a quarantined host and changes no other |
| `HorizonHosts.HorizonHostManager.RecordError` | src/clients/horizon-host-manager.ts:123-148 | counts only retriable errors that are no client errors, on healthy hosts |
| `HorizonHosts.QuarantineMeansBurst` | src/clients/horizon-host-manager.ts:65-148 | in every run a host is quarantined exactly when it holds three errors, exactly when three of its errors since its last recovery fell within ten seconds; until then it holds the full log restricted to the window |
| `HorizonHosts.StrikeFollowsLog` | src/clients/horizon-host-manager.ts:135-147 | one error keeps that |
| `HorizonHosts.RecentOfRecent` | src/clients/horizon-host-manager.ts:139 | pruning early never changes what is recent later |
| `HorizonHosts.ReadmittedOnlyAfterCooldown` | src/clients/horizon-host-manager.ts:69-86 | picking a host readmits another exactly after fifteen seconds and a successful probe |
| `StellarAmounts.PrintThenParse` | src/clients/horizon-contract-client.ts:618-644 | parsing a printed amount returns it exactly for non-negative amounts; negative ones are refused |
| `StellarAmounts.ParseThenPrint` | src/clients/horizon-contract-client.ts:1391-1397 | printing a parsed canonical seven-digit decimal returns the text |
| `StellarAmounts.PrintThenParseMajor` | src/utils/amount.ts:90-113 | the stricter parser returns it exactly for 1 up to its limit |
| `StellarAmounts.DecimalMeaning` | src/clients/horizon-contract-client.ts:636-643 | whole.fraction is read as the number its digits spell |
| `StellarAmounts.GuardRoundsDown` | src/clients/horizon-contract-client.ts:1469-1476 | the guard is the floor of the tolerated amount exactly when the tolerance is at most 100 percent or nothing is cut off |
| `StellarAmounts.GuardRoundsUp` | src/clients/horizon-contract-client.ts:1469-1476 | a quote of 1 at 10001 basis points gives 0 where rounding down gives -1 |
| `StellarAmounts.GuardBounds` | src/clients/horizon-contract-client.ts:1469-1476 | for 0 to 100 percent the guard lies between nothing and the quote and separates payments inside the tolerance from those a stroop below |
| `StellarAmounts.GuardIsAntitone` | src/clients/horizon-contract-client.ts:1469-1476 | more tolerance never raises the guard |
| `StellarAmounts.GuardSurvivesPrinting` | src/clients/horizon-contract-client.ts:1476-1484 | the guard sent as text is the guard computed |

## Left out

- Express routing, middleware wiring, header checks, logging, metrics registration, audit events and command-line scripts: input and output without a multi-step property.
- The 24-hour lifetime of idempotency entries is an arbitrary expiry step; the missing-header and missing-Redis branches before line 83 of the middleware are not modelled.
- UTF-8 decoding, JSON parsing, payload codecs and hashing of request bodies are abstract functions or values.
- Event cursors and paging tokens of the stream are ledger positions, and the server sends the events after a cursor in order.
- Strings are sequences of Unicode characters; lone surrogates are not modelled.
- Time stamps and the random part of ids in the rollout registry; `getById` and `list` are plain look-ups.
- Case folding is ASCII only.
- The facet model is the unfiltered query over slots; cache keys, filters, SQL text and refresh scheduling are not part of it.
- Migrations.Database.WithTransaction: a ROLLBACK always ends the transaction. The original logs a failing one and hands the client back to the pool, possibly with its transaction still open; which later statement then meets that client is up to the pool and not modelled.
- Migrations.AlwaysAtSomeStep: for the same reason its faults do not include a failing ROLLBACK.
- `MigrationRunner.status` and `validate`, the name-format warnings of the order check and the query budget of `withTransaction`: easy members only.
- WAL sequence numbers at or above 2^53 would be rounded by the original; here they are exact. File sizes and report time stamps are not modelled.
- Diffed values are JSON trees; arrays are compared by their JSON text; inherited properties, NaN and negative zero are not modelled.
- The cache clock yields a later reading at each call; `getOrLoad` is a get followed by a set and adds no property of its own.
- Metrics gauges of the route metrics and of the token bucket.
- SloMetrics.RouteMetrics.GetBurnRate: what a rate above one means is stated for up to 10^12 requests in a window; for several times as many, doubles no longer tell neighbouring counts apart. Doubles are real numbers with a rounding function of which only the relative error is known.
- SloMetrics.AboveOneExactly: the same limit.
- Paging without a maximum against a server that keeps inventing tokens does not end; the model asks for finitely many tokens in that case only.
- Timers of the token bucket: a backoff is its computed delay and, separately, what happens when it ends.
- `getHealthyHost` is atomic: calls interleaved with a running probe are not modelled. Which errors are retriable is an input.
- Amounts are exact integers; the original is exact within safe integers. Path finding, oracle checks and the floating-point fallback of the slippage guard are not modelled.
- Fee-bump validation, the Soroban escrow client, `buildFacetCacheKey`, process lifecycle and the GraphQL cost estimator.
