# Verified model of the snc-platform algorithms

This project models, in Dafny, the algorithms and small state machines of the platform's API server and
web build, and proves what they promise. Modules follow the source files: the build configuration is split
into capture and patch, image detection into the detector, its byte layouts and two groups of formats, and
sorting, table filters, runs and result types are shared. Each operation keeps the form it has in TypeScript. Code that updates state is a class or a
method with loops, proved against a specification function; the promises are lemmas about that function
over all inputs, all runs or all tables.

Verify everything with `dafny verify dfyconfig.toml`.

| file | models |
|---|---|
| `RouteCss.dfy`, `ManifestPatch.dfy` | the route-CSS collector and the manifest patch of the web build |
| `PageSlots.dfy` | the page-slot semaphore of the PDF renderer and the renders around it |
| `ByteLayout.dfy`, `ImageDetect.dfy`, `JpegGrammar.dfy`, `ImageFormats.dfy` | image header detection, and the header formats as encoders |
| `Cursor.dfy`, `Sorting.dfy` | keyset pagination and the sorted listings it walks |
| `RateLimit.dfy` | the per-client rate limiter |
| `Channels.dfy` | creator live-ingest channels |
| `Runs.dfy` | runs of a step function, shared by the renderer, the channels and the webhooks |
| `Webhook.dfy` | Stripe webhook processing |
| `Moderation.dfy`, `Reactions.dfy`, `Tables.dfy` | chat sanctions, emoji reactions, filtering of rows |
| `FileRange.dfy`, `EscapeHtml.dfy`, `SseLines.dfy` | byte ranges, HTML escaping, SSE line reassembly |

## How the source is read

- Each service function is one atomic step over in-memory tables. Clocks, generated ids and the rows of
  referenced tables are parameters.
- A JavaScript `Map` or record table is a `map` or a sequence of rows, a `Set` is a `set`; where the
  enumeration order of a set shows in a result, the result is proved for every order.
- Constraints of the database schema are part of the model: a repeated SRS stream name, a repeated Stripe
  subscription id or an unknown user or plan makes the statement fail.

## Where the code does less than it, or its documentation, promises

Each of these is a lemma with a concrete input and, beside it, the exact condition under which the promise
holds.

- Rate limiter: the limit holds for fixed windows; over any interval as long as a window a client can get
  2·max − 1 requests through (`SlidingBound`, `BoundIsReached`), so it holds for those exactly when it is one
  request or the window at most a millisecond (`CapHoldsExactly`). A client that comes back between the reset
  and the rounded-up Retry-After deadline can be rejected again at the deadline (`RetryAfterCanFail`): exactly
  when the window it opened then is neither over nor has room (`SharedRetryAfterIsHonoured`,
  `SharedEarlyReturn`).
- PDF renderer: held slots never exceed two, but a retry is returned without being awaited, so three renders,
  and any number of them, can be in flight (`RetryExceedsBound`, `AnyNumberInFlight`). At most two are, in
  all runs from a state on that return no further retry, exactly when no retry is in flight in that state
  (`TwoInFlightExactly`).
- Pagination: the cursor keeps milliseconds only. Newest first, a row of the last row's millisecond can be
  skipped (`SubMillisecondRowIsSkipped`); oldest first, the last row can be listed again for ever
  (`SubMillisecondRowIsRepeated`). A static listing is walked correctly exactly when each cursor used
  separates the rows around it (`StaticWalkExactly`).
- Channels: deduplication keeps the oldest row even when a younger one is live, and publishes nothing
  (`DedupCanDropALiveChannel`, `DedupKeepsLiveIff`).
- Webhooks: an event is recorded before its handler runs. An event whose insert fails is never applied
  (`FailedEventIsLost`, `FailsExactly`), nor is an update that arrives before the checkout of its
  subscription: an early invoice leaves no period end and an early deletion leaves the row active
  (`EarlyInvoiceAndDeletion`). When a lost update or the order of two updates changes the row is exact
  (`UpdateNeedsItsRow`, `EarlyUpdateIsLost`, `UpdatesCommuteExactly`, `RowStartsAtCheckout`).
- Sanctions: the doc comment of `isUserTimedOut` speaks of a timeout that has not expired; the code looks at
  the newest timeout only (`NewerTimeoutHidesOlder`). The two agree at every moment exactly when no timeout
  expires later than the newest one (`TimeoutsAgreeExactly`). The model follows the code.

## Model

| member | source | states |
|---|---|---|
| RouteCss.GetCss | apps/web/vite.config.ts:37-50 | for every finite graph, cycles and missing targets included, and every visited set: the walk terminates, adds exactly the nodes reachable by a path avoiding that set, and returns exactly the CSS of the nodes it added |
| RouteCss.FilePath | apps/web/vite.config.ts:61 | the part of a module id before its first question mark |
| RouteCss.SplitModules | apps/web/vite.config.ts:54-56 | keeps exactly the ids that contain the text tsr-split |
| RouteCss.SplitModulesHoldTheMark | apps/web/vite.config.ts:54-56 | an id is a split module iff the text tsr-split stands somewhere in it |
| RouteCss.ChunksByFileName | apps/web/vite.config.ts:29-34 | the lookup holds exactly the chunks of the bundle |
| RouteCss.ChunksAreEntries | apps/web/vite.config.ts:29-34 | a name maps to a chunk in that lookup iff the bundle lists the chunk under it |
| RouteCss.RouteCssCollector.AddToRoutes | apps/web/vite.config.ts:60-65 | one chunk's CSS is added to each of its route files and no other entry changes |
| RouteCss.RouteCssCollector.GenerateBundle | apps/web/vite.config.ts:28-67 | each route file maps to what it had plus the CSS of every chunk reachable from any of its split chunks; no other route appears |
| RouteCss.ClosedIsExact | apps/web/vite.config.ts:37-50 | a set of newly visited nodes that is reached and closed under imports is exactly the white-path reachable set |
| RouteCss.OrderIrrelevant | apps/web/vite.config.ts:52-66 | the captured map is the same for every order in which the bundle lists its entries |
| ManifestPatch.PatchRoute | apps/web/vite.config.ts:103-116 | in whatever order the files come: old assets stay a prefix, each file not linked yet gets exactly one link, nothing else is added, and the result says whether anything changed |
| ManifestPatch.PatchManifest | apps/web/vite.config.ts:79-120 | every route is patched with the files of its path, routes without a path or without files stay as they are, and the result is true iff some route changed |
| ManifestPatch.PatchedIsAppended | apps/web/vite.config.ts:100-116 | a patch written out: behind the old assets one link with rel stylesheet, type text/css and the slash path for each captured file that no asset links yet, once each; without such files the route is unchanged |
| ManifestPatch.OtherRoutesStay | apps/web/vite.config.ts:96-98 | a route without a file path, or whose path has no captured files, is unchanged |
| ManifestPatch.PatchedHrefs | apps/web/vite.config.ts:103-116 | the hrefs afterwards are the old ones plus one for each captured file |
| ManifestPatch.PatchAddsOnce | apps/web/vite.config.ts:106-115 | a captured file's link occurs once more than before if it was missing and as often as before otherwise |
| ManifestPatch.SecondPatchIsIdle | apps/web/vite.config.ts:93-121 | patching a patched route changes nothing |
| ManifestPatch.PatchTwice | apps/web/vite.config.ts:93-121 | running the hook a second time reports no rewrite |
| ManifestPatch.RouteLinksReachableCss | apps/web/vite.config.ts:8-18 | capture and patch together: a route links what it linked plus exactly the CSS reachable from any chunk split out of its file, so no chunk's CSS is lost |
| PageSlots.Slots.AcquirePageSlot | apps/api/src/services/browser-pdf.ts:171-189 | takes a free slot at once or queues the request with an armed timer |
| PageSlots.Slots.ReleasePageSlot | apps/api/src/services/browser-pdf.ts:161-169 | hands the slot to the first waiter and disarms its timer, or returns it |
| PageSlots.Slots.TimerFires | apps/api/src/services/browser-pdf.ts:181-185 | removes the waiter from wherever it stands and rejects it, changing no slot |
| PageSlots.StepKeepsInv | apps/api/src/services/browser-pdf.ts:161-189 | every acquire, release and timeout keeps: counter equals held slots, at most two, nobody waits while a slot is free, timers are those of the waiters, every earlier request has settled or waits ahead |
| PageSlots.EveryRunIsSafe | apps/api/src/services/browser-pdf.ts:161-189 | over all interleavings: at most two held slots, a nonempty queue means two, no holders means counter zero and no waiters, grants go out in order of arrival and never before an earlier request has settled |
| PageSlots.SettlesOnce | apps/api/src/services/browser-pdf.ts:161-189 | a promise once settled keeps its outcome for the rest of any run, and only its own timer rejects a request |
| PageSlots.Conservation | apps/api/src/services/browser-pdf.ts:161-189 | holders plus waiters plus releases plus timeouts equal what there was plus the acquires, so a timeout neither loses nor creates a slot |
| PageSlots.SettledAfterReleases | apps/api/src/services/browser-pdf.ts:161-189 | the waiter at position k has settled after k + 1 releases, by a grant unless its own timer fired |
| PageSlots.GrantedExactlyAfter | apps/api/src/services/browser-pdf.ts:161-189 | without timeouts it is granted exactly when more than k slots have been released |
| PageSlots.DrainsToZero | apps/api/src/services/browser-pdf.ts:161-169 | as many releases as holders and waiters serve every waiter and bring the counter to zero |
| PageSlots.RendersInFlight | apps/api/src/services/browser-pdf.ts:368-383 | from any state that satisfies the invariant of all runs, runs that return no further retry have at most two renders plus the retries now in flight, and some run reaches that number |
| PageSlots.RenderEnds | apps/api/src/services/browser-pdf.ts:368-383 | a render in flight is over exactly when it finishes without a retry or its retry settles |
| PageSlots.SlotsComeBack | apps/api/src/services/browser-pdf.ts:368-386 | every finish, with or without a retry, and every timeout takes one holder or waiter away, and only a new request adds one |
| PageSlots.TwoInFlightExactly | apps/api/src/services/browser-pdf.ts:368-383 | all those runs keep at most two renders in flight iff no retry is in flight now |
| PageSlots.AnyNumberInFlight | apps/api/src/services/browser-pdf.ts:377-383 | with returned retries every number of renders is in flight in some run from the idle renderer |
| PageSlots.RetryExceedsBound | apps/api/src/services/browser-pdf.ts:377-383 | a concrete run with one returned retry has three renders in flight |
| ImageDetect.MatchesAscii | apps/api/src/lib/image-detect.ts:34-40 | true iff the text stands at the offset, false out of bounds |
| ImageDetect.ReadJpegDimensions | apps/api/src/lib/image-detect.ts:177-211 | the nested loops compute the segment walk; all reads are in bounds and the offset advances on every array |
| ImageDetect.DetectImage | apps/api/src/lib/image-detect.ts:227-242 | type by magic, dimensions by that type's parser, for every byte array |
| ImageDetect.DetectedRange | apps/api/src/lib/image-detect.ts:95-110 | both dimensions are reported or neither, and they lie in the format's own range within 1 to 2147483647 |
| ImageFormats.TypeIsMagic | apps/api/src/lib/image-detect.ts:214-231 | the type goes by the magic bytes alone, written out, and without one of the three there is no image |
| JpegGrammar.JpegRoundTrip | apps/api/src/lib/image-detect.ts:177-211 | any standalone markers and segments with any fill bytes, then a frame header, then anything, within the scan limit: width and height of the first frame header, or none if one is zero |
| JpegGrammar.MarkersAgree | apps/api/src/lib/image-detect.ts:18-23 | the detector's frame, standalone and end markers are the grammar's listed sets |
| JpegGrammar.JpegIsParsed | apps/api/src/lib/image-detect.ts:177-211 | dimensions found by the walk come from a frame header preceded by well-formed parts only |
| JpegGrammar.JpegDetectedExactly | apps/api/src/lib/image-detect.ts:177-242 | w by h is reported exactly for the streams of that grammar, whose marker sets and scan limit are written out independently of the detector |
| ImageFormats.PngDetectedExactly | apps/api/src/lib/image-detect.ts:112-120 | w by h is reported exactly for signature, IHDR length and type, legal w and h and nine more bytes |
| ImageFormats.ExtendedExactly | apps/api/src/lib/image-detect.ts:137-145 | VP8X payload: exactly the 24-bit fields of w and h minus one |
| ImageFormats.LosslessExactly | apps/api/src/lib/image-detect.ts:147-155 | VP8L payload: exactly the 14-bit packed w and h minus one, whatever the alpha and version bits |
| ImageFormats.KeyFrameExactly | apps/api/src/lib/image-detect.ts:157-172 | VP8 payload: exactly a key frame with start code and 14-bit nonzero w and h, whatever the scale bits |
| ImageFormats.WebpDetectedExactly | apps/api/src/lib/image-detect.ts:122-175 | w by h is reported exactly for RIFF containers with fitting sizes whose first chunk has one of the three payloads |
| Cursor.ConditionIsAfter | apps/api/src/lib/cursor.ts:67-78 | on whole milliseconds the cursor condition selects exactly the rows listed after the cursor's row; otherwise no others newest first, and none less oldest first |
| Cursor.CursorExactIffAligned | apps/api/src/lib/cursor.ts:61-78 | it is exact, both for the rows with other ids and with the row itself, iff the row's timestamp is a whole millisecond |
| Cursor.SubMillisecondRowIsSkipped | apps/api/src/lib/cursor.ts:67-98 | two rows within one millisecond, one per page, newest first: the walk completes without listing the second |
| Cursor.SubMillisecondRowIsRepeated | apps/api/src/routes/project.routes.ts:124-150 | oldest first, one per page, a row inside a millisecond: every page of a walk of any length is that row, and the walk never completes |
| Cursor.PageIsPrefix | apps/api/src/lib/cursor.ts:85-98 | a page is the first limit rows behind the cursor, with a cursor at its last row iff more rows remain |
| Cursor.ListedInOrder | apps/api/src/routes/content-feed.routes.ts:85-105 | the rows behind a cursor stand newest first by time and descending id, or oldest first by time and ascending id |
| Cursor.WalkIsMonotone | apps/api/src/lib/cursor.ts:67-98 | under any inserts and deletes between pages the listed rows are strictly monotone across page boundaries and come from the fetched snapshots: newest first for all timestamps, oldest first if the rows the cursors stand at are whole milliseconds |
| Cursor.NeverListedTwice | apps/api/src/lib/cursor.ts:67-98 | under the same conditions no row id is listed twice in a walk |
| Cursor.CompletedWalkListsAll | apps/api/src/lib/cursor.ts:67-98 | a completed walk lists every row that was present at every fetch: oldest first for all timestamps, newest first if the rows the cursors stand at are whole milliseconds |
| Cursor.StaticWalkExactly | apps/api/src/lib/cursor.ts:67-98 | on an unchanged table with any timestamps the pages concatenate to the sorted table iff at every page end the cursor separates the rows around it (oldest first: the last row is a whole millisecond); then the walk completes after the stated number of pages |
| Cursor.StaticWalk | apps/api/src/lib/cursor.ts:67-98 | for whole milliseconds they always do |
| Cursor.PageCountIsCeiling | apps/api/src/lib/cursor.ts:90-96 | that number is n over limit rounded up, at least one |
| RateLimit.RateLimiter.Cleanup | apps/api/src/middleware/rate-limit.ts:60-69 | once per interval, exactly the expired records are deleted |
| RateLimit.RateLimiter.Handle | apps/api/src/middleware/rate-limit.ts:71-94 | the decision and the new state of one request |
| RateLimit.CleanupIsTransparent | apps/api/src/middleware/rate-limit.ts:60-94 | the decisions of every trace equal those of a limiter that never cleans up |
| RateLimit.ExpiredRecordsGo | apps/api/src/middleware/rate-limit.ts:56-69 | over every timed trace, after each request every record kept belongs to a window that ended less than a minute before it, or has not ended |
| RateLimit.Isolation | apps/api/src/middleware/rate-limit.ts:71-94 | each client's decisions equal those of its own requests alone |
| RateLimit.FixedWindowBound | apps/api/src/middleware/rate-limit.ts:79-93 | a window admits at most max requests (one if max is below one) |
| RateLimit.SlidingBound | apps/api/src/middleware/rate-limit.ts:71-94 | any half-open interval of window length contains at most 2 max - 1 admitted requests |
| RateLimit.SharedSlidingBound | apps/api/src/middleware/rate-limit.ts:52-95 | the same for each client of the shared, cleaning limiter over every trace |
| RateLimit.BoundIsReached | apps/api/src/middleware/rate-limit.ts:71-94 | for every max and every window of two or more milliseconds some trace reaches that bound |
| RateLimit.CapHoldsExactly | apps/api/src/middleware/rate-limit.ts:71-94 | every interval of window length of every trace keeps to the limit iff the limit is one request or the window at most one millisecond |
| RateLimit.RetryAfterCoversReset | apps/api/src/middleware/rate-limit.ts:88 | Retry-After is at least one second and the first whole second not before the reset |
| RateLimit.SharedServes | apps/api/src/middleware/rate-limit.ts:52-95 | the k-th answer a client gets from the shared, cleaning limiter, in any timed trace, is the one its own record after its first k requests calls for |
| RateLimit.RetryAfterIsHonoured | apps/api/src/middleware/rate-limit.ts:79-90 | for one record: a client silent from the reset to the deadline is admitted then, however often it asked before the reset |
| RateLimit.SharedRetryAfterIsHonoured | apps/api/src/middleware/rate-limit.ts:52-95 | the same for any two requests of a client of the shared limiter in any timed trace, with the reset within the last second before the deadline |
| RateLimit.SharedSilentSecondIsEnough | apps/api/src/middleware/rate-limit.ts:52-95 | so a client silent from a second before its deadline on is admitted at the deadline |
| RateLimit.SharedEarlyReturn | apps/api/src/middleware/rate-limit.ts:52-95 | otherwise an admitted request after the reset opened its last window, and it is admitted iff that window is over or has room |
| RateLimit.EarlyReturnSpendsTheWindow | apps/api/src/middleware/rate-limit.ts:79-90 | for one record: after any trace whose last window was opened by some request, the next request is admitted iff that window is over or has room |
| RateLimit.LastWindow | apps/api/src/middleware/rate-limit.ts:79-93 | every ordered trace that reaches past the reset of its record has such a last window |
| RateLimit.RetryAfterCanFail | apps/api/src/middleware/rate-limit.ts:79-90 | a concrete trace in which the request at the deadline is rejected |
| Channels.ChannelService.EnsureCreatorChannel | apps/api/src/services/channels.ts:220-282 | provisions an inactive row, or sorts the duplicates and deletes all but the oldest |
| Channels.ChannelService.DeleteRows | apps/api/src/services/channels.ts:266-268 | the loop deletes exactly the rows with the given ids |
| Channels.ChannelService.ActivateLiveChannel | apps/api/src/services/channels.ts:299-364 | activates the creator's row for the session, or inserts one, and publishes live; a taken stream name changes nothing |
| Channels.ChannelService.DeactivateLiveChannel | apps/api/src/services/channels.ts:370-405 | deactivates the active row of the session and publishes not live, or does nothing |
| Channels.EnsureProvisions | apps/api/src/services/channels.ts:235-249 | a creator without a live-ingest row gets exactly one, column by column, and the same answer again; with the placeholder name taken nothing happens |
| Channels.EnsureDedups | apps/api/src/services/channels.ts:252-271 | otherwise the answer is an oldest of the creator's rows, the only one of them that stays, and no other row or event changes |
| Channels.ActivateInserts | apps/api/src/services/channels.ts:317-339 | a first publish without a row inserts a live one, column by column, and publishes live, unless the stream name is taken |
| Channels.ActivateUpdates | apps/api/src/services/channels.ts:341-354 | a publish updates the first row in place, column by column, and fails exactly when another row has the stream name |
| Channels.DeactivateExactly | apps/api/src/services/channels.ts:370-396 | an unpublish makes the first active row of the session idle, changes no other column or row, and says so; without one it does nothing |
| Channels.SortedHeadIsOldest | apps/api/src/services/channels.ts:253-257 | the stable sort puts the first of the oldest rows at the head |
| Channels.ApplyKeepsInv | apps/api/src/services/channels.ts:220-405 | every operation keeps the invariant that ties rows and events to the log of operations |
| Channels.RunsAreFenced | apps/api/src/services/channels.ts:220-405 | from any table without duplicates whose active rows are the ones last published as live, every run keeps one live-ingest row per creator, active iff the most recently activated session, at the start or in the run, has not been deactivated since, as its last published event says |
| Channels.NewRunsAreFenced | apps/api/src/services/channels.ts:220-405 | from a table in which no stream is live, whatever earlier sessions its rows carry, the run's own operations decide that |
| Channels.RowsStayUnique | apps/api/src/services/channels.ts:220-405 | from any table with unique ids and at most one live-ingest row per creator, active ones included, every run with new ids keeps both |
| Channels.LateUnpublishIsIgnored | apps/api/src/services/channels.ts:374-386 | unpublishing a session that is no longer its creator's live one changes nothing |
| Channels.EnsureKeepsOldest | apps/api/src/services/channels.ts:253-271 | from any duplicates exactly the oldest row remains, other rows and events are untouched, and repeating it changes nothing |
| Channels.DedupKeepsLiveIff | apps/api/src/services/channels.ts:253-271 | afterwards the creator has an active row iff the oldest row was active, and no event is published |
| Channels.DedupCanDropALiveChannel | apps/api/src/services/channels.ts:253-271 | a concrete table in which a live channel disappears silently |
| Webhook.WebhookRoute.Post | apps/api/src/routes/webhook.routes.ts:177-238 | one delivery: skipped if recorded, else recorded and handled, with an error answer if the handler's statement fails |
| Webhook.WebhookRoute.HandleCheckoutCompleted | apps/api/src/routes/webhook.routes.ts:34-64 | inserts the active row, ignores incomplete sessions, fails on a repeated subscription or unknown user or plan |
| Webhook.WebhookRoute.HandleInvoicePaid | apps/api/src/routes/webhook.routes.ts:83-103 | sets the row active with the period end, null when missing or zero |
| Webhook.WebhookRoute.HandlePaymentFailed | apps/api/src/routes/webhook.routes.ts:108-118 | sets the row past due |
| Webhook.WebhookRoute.HandleSubscriptionUpdated | apps/api/src/routes/webhook.routes.ts:127-144 | syncs status, period end and cancellation flag |
| Webhook.WebhookRoute.HandleSubscriptionDeleted | apps/api/src/routes/webhook.routes.ts:149-156 | sets the row canceled |
| Webhook.CheckoutInserts | apps/api/src/routes/webhook.routes.ts:34-64 | a new complete checkout inserts an active row with the user, plan and customer of its payload, no period end, not cancelling |
| Webhook.CheckoutIsRefused | apps/api/src/routes/webhook.routes.ts:54-64 | with a row already there, or an unknown user or plan, it is recorded and answered with an error, and the table stays |
| Webhook.IncompleteIsRecorded | apps/api/src/routes/webhook.routes.ts:46-52 | an event that lacks a field its handler needs, or has no handler, is recorded and changes no row |
| Webhook.InvoicePaidSets | apps/api/src/routes/webhook.routes.ts:83-103 | the row becomes active with the period end in milliseconds, null when missing or zero; no other column changes but the time |
| Webhook.PaymentFailedSets | apps/api/src/routes/webhook.routes.ts:108-118 | the row becomes past due; no other column changes but the time |
| Webhook.SubscriptionEventSets | apps/api/src/routes/webhook.routes.ts:127-156 | an update sets status, period end and flag, a deletion the status; no other column changes but the time |
| Webhook.DuplicatesAreIgnored | apps/api/src/routes/webhook.routes.ts:190-205 | any delivery sequence has the effect of the first deliveries of its event ids |
| Webhook.RowDependsOnOwnEvents | apps/api/src/routes/webhook.routes.ts:192-226 | a subscription's row is what its own first deliveries, in order, make of it |
| Webhook.InterleavingIsIrrelevant | apps/api/src/routes/webhook.routes.ts:192-226 | sequences that deliver the same new events about a subscription in the same order, the same one inserting its row, give the same row up to the generated id and the times, whatever the clocks, ids, users, plans, redeliveries and other events |
| Webhook.SameDeliveriesSameTable | apps/api/src/routes/webhook.routes.ts:192-226 | sequences that agree on every subscription's own first deliveries, times and ids included, give equal tables |
| Webhook.FailsExactly | apps/api/src/routes/webhook.routes.ts:192-211 | an error is answered iff a new complete checkout violates a constraint |
| Webhook.FailedEventIsLost | apps/api/src/routes/webhook.routes.ts:190-211 | after such a failure every redelivery, after any other deliveries, is acknowledged and does nothing |
| Webhook.UpdateNeedsItsRow | apps/api/src/routes/webhook.routes.ts:83-156 | in every state a new update event rewrites exactly its columns and the time if the row is there, and otherwise changes no row now or on any later redelivery |
| Webhook.RowStartsAtCheckout | apps/api/src/routes/webhook.routes.ts:34-156 | a row is what the deliveries after its first successful checkout make of the row inserted; everything earlier is lost |
| Webhook.UpdatesCommuteExactly | apps/api/src/routes/webhook.routes.ts:83-156 | two updates of a row give the same row in both orders, but for the time, iff they set no column to different values |
| Webhook.EarlyUpdateIsLost | apps/api/src/routes/webhook.routes.ts:34-156 | any update before its checkout leaves the inserted row; that differs from the proper order, column by column, iff the update sets something else than a checkout does (for the period end: iff it brings one) |
| Webhook.EarlyInvoiceAndDeletion | apps/api/src/routes/webhook.routes.ts:83-156 | in particular an early invoice leaves no period end and an early deletion leaves an active row |
| Moderation.ModeratorNames | apps/api/src/services/chat-moderation-auth.ts:210-218 | the loop with its early break finds the moderators of the newest ban and the newest timeout |
| Moderation.LookupsAreReplay | apps/api/src/services/chat-moderation-auth.ts:76-136 | the newest-first lookups agree at every moment with replaying the actions in order |
| Moderation.GetRoomState | apps/api/src/services/chat-moderation-auth.ts:157-229 | the room state is what the replay calls for; in terms of the log alone: the newest ban or unban and the newest timeout of that user in that room, with their moderators; null for unknown rooms, no sanctions for anonymous callers |
| Moderation.OtherActionsDoNotMatter | apps/api/src/services/chat-moderation-auth.ts:86-121 | an action against another user or in another room changes neither the ban nor the timeout |
| Moderation.BannedExactly | apps/api/src/services/chat-moderation-auth.ts:72-100 | banned iff some ban has no newer ban or unban |
| Moderation.TimedOutExactly | apps/api/src/services/chat-moderation-auth.ts:106-136 | timed out iff a running timeout has no newer timeout |
| Moderation.TimeoutsAgreeExactly | apps/api/src/services/chat-moderation-auth.ts:102-136 | that means some timeout still runs, at every moment, iff no timeout expires later than the newest one |
| Moderation.NewerTimeoutHidesOlder | apps/api/src/services/chat-moderation-auth.ts:102-136 | a concrete log in which a running timeout is hidden by a newer expired one |
| Reactions.ReactionService.AddReaction | apps/api/src/services/chat-reactions.ts:34-85 | refused exactly for an unknown room, a closed room, a message not in it or a banned user, the first of these naming the error; otherwise the row, column by column, is appended unless the same user already gave the message that emoji, answering the users of the emoji without repetition |
| Reactions.ReactionService.RemoveReaction | apps/api/src/services/chat-reactions.ts:93-128 | refused exactly for an unknown room; otherwise the rows of that message, user and emoji go, no others, answering the users left |
| Reactions.AddIsIdempotentAndUndone | apps/api/src/services/chat-reactions.ts:62-71 | adding or removing twice is once, and removing a fresh reaction restores the table row for row |
| Reactions.ReactionService.GetReactionsForMessage | apps/api/src/services/chat-reactions.ts:134-158 | the summary of the message's rows grouped by emoji in order of first use |
| Reactions.ReactionService.GetReactionsBatch | apps/api/src/services/chat-reactions.ts:164-199 | has exactly the requested messages with reactions, each with the answer of the single-message query |
| Reactions.SummaryIsExact | apps/api/src/services/chat-reactions.ts:16-24 | each emoji in use appears once with its positive row count, reactedByMe is membership, counts add up to the rows |
| Reactions.SummaryIsInOrder | apps/api/src/services/chat-reactions.ts:144-155 | the emojis stand in the order of their first use |
| FileRange.ParsedExactly | apps/api/src/lib/file-utils.ts:68-85 | a header parses to a range iff it is bytes=, two strings of the digits 0 to 9 around a hyphen, not both empty, with those values |
| FileRange.ValueIsPositional | apps/api/src/lib/file-utils.ts:75-82 | digit strings are read in base ten, leading zeros ignored |
| FileRange.ParsePrint | apps/api/src/lib/file-utils.ts:68-85 | parsing a printed range returns it |
| FileRange.ResolveRange | apps/api/src/lib/file-utils.ts:92-116 | the assignments yield exactly the requested bytes that exist, and nothing iff there are none |
| FileRange.ResolvedExactly | apps/api/src/lib/file-utils.ts:92-116 | the same for the resolution as a function, on which the download of chunks is built |
| FileRange.ChunksAreWhole | apps/api/src/lib/file-utils.ts:68-116 | requesting consecutive ranges of any chunk size reassembles the file |
| EscapeHtml.EscapeIsSimultaneous | apps/api/src/email/templates.ts:6-12 | the five replacements in order equal one replacement per character |
| EscapeHtml.OutputIsInert | apps/api/src/email/templates.ts:5-12 | no raw angle bracket or quote remains, and every ampersand starts one of the five entities |
| EscapeHtml.RoundTrip | apps/api/src/email/templates.ts:6-12 | unescaping gives back every string |
| EscapeHtml.EscapeIsInjective | apps/api/src/email/templates.ts:6-12 | different strings have different escaped forms |
| SseLines.SplitIsUnique | apps/api/scripts/sse-smoke.ts:131 | splitting is the only way to cut a text into newline-free lines that join to it |
| SseLines.SplitAppend | apps/api/scripts/sse-smoke.ts:130-132 | more text only continues the last line |
| SseLines.LineReader.HandleLines | apps/api/scripts/sse-smoke.ts:134-150 | every line is handled in order and sets its flags |
| SseLines.LineReader.Feed | apps/api/scripts/sse-smoke.ts:130-150 | after every read the handled lines and the buffer are the newline split of all text received |
| SseLines.ChunkingIsIrrelevant | apps/api/scripts/sse-smoke.ts:130-150 | readers that received the same text in different chunks handled the same lines and set the same flags |
| SseLines.FlagsReport | apps/api/scripts/sse-smoke.ts:138-149 | after any chunks: connected iff a handled line starts with the connected event, heartbeat iff one is exactly the heartbeat comment, expected iff an event is expected and its line was handled |

## Left out

- `patchManifestCss`: finding the manifest in the code, evaluating and re-serialising it; the model starts from the parsed routes.
- `getCss` results and `routeCssMap` values are plain sets, so the order in which links are appended is left open.
- Browser control, asset waiting, page geometry and the length of timeouts in `browser-pdf.ts`; a timer may fire at any time while it is armed.
- Base64url and JSON of the cursor: decoding is taken to return what was encoded.
- Row columns other than the key in listings, and the further WHERE conditions of the individual routes.
- IP extraction and HTTP headers around the rate limiter; the decision carries the Retry-After value.
- Foreign keys of the channels table, `dispatchChannelGoLive` and the broadcast and playout channels.
- Primary-key collisions of generated ids in the subscriptions, channels and reactions tables.
- Database failures other than the modelled constraints, and races between the queries of one service function.
- How the database driver's error reaches the duplicate check at `apps/api/src/routes/webhook.routes.ts:199`: a repeated event id is taken to be recognised by its code. Were the error wrapped, a redelivery would be answered with an error instead; it would still change nothing.
- Signature verification of webhooks, and the Stripe objects beyond the fields the handlers read.
- Number parsing beyond 2^53 in range headers: digit strings are read as unbounded naturals.
- `streamFile`, content types, filename helpers and the email layout around `escapeHtml`.
- Stopping conditions, exit codes and byte decoding of the SSE smoke client.
- `canModerateRoom`, `selectDefaultChannel` and `buildHlsUrl`: easy lookups.
