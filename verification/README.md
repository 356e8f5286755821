# OxiCloud in Dafny

A model of the parts of OxiCloud where an optimised form replaced a simple one, or where
many actors share state, with proofs over all inputs, all page sizes and all runs.
`dafny verify dfyconfig.toml` checks the whole project.

The modules, by area:

- **CalDAV.** `CalDavBundles` groups events by UID (first appearance, masters before
  overrides) and cuts the window-ordered database stream into pages at UID changes.
  `CalDavTies` says exactly for which tables the streamed answer is the buffered one.
  `CalDavStream` and `CalDavZones` carry this to the bytes of the REPORT and of the `.ics`
  export, time zones included. `ICalendar` is the line scanner and the VEVENT slicer
  (sections 3.1 and 3.6.1 of RFC 5545), and `StoredBlocks` and `ZoneBlocks` say when stored
  blocks and time zones are sliced out whole.
- **Query rewrites.** `Ordering` gives ORDER BY and LIMIT a meaning on sequences.
  `ListingKeyset`, `FolderWalk` and `PhotosTimeline` compare the old and the new query
  shapes and the loops that walk them.
- **Protocols.** `SingleFlight` (one download per blob), `BlobCacheIndex` (byte budget and
  files on disk) and `SharedLink` (bandwidth reservations) are state machines or classes.
- **Tables that change.** `RecentItems` (upsert and prune) and `RecentTies` (the same with
  equal times), `Quota` (upload admission in machine integers, one by one and in flight),
  `GroupExpansion` (recursive group queries), `GroupNesting` (cycle and depth checks) and
  `GroupRaces` (the same checks in interleaved transactions), `SessionRotation` (one
  transaction or two).
- **Printers and encoders.** `Xml` and `Propfind` (section 9.1 of RFC 4918), `UploadBody`
  and `UploadBodyRead`,
  `ContentDisposition` (RFC 6266 and section 3.2.1 of RFC 5987), `Calendar` and
  `Formatters` (dates and numbers in fixed buffers), `StoragePath`, `DescribeSuffix`,
  `RangedBlob`.
- **Shared.** `Wrappers`, `Sequences`, `Strings`, `MachineInts`.

How the source is read:

- A table is a sequence of rows, a query a function of it, and the database's collation an
  arbitrary strict total order. A loop of the source is a loop here, a struct or table that
  is updated is a class or a state, and time, scheduling, failures and the choice of cache
  victims are parameters or arbitrary.
- Walks of listings need a positive page size. With 0 the source's loops do not end.
- Where a promise holds only under a condition, the condition is proved to be exact:
  `CalDavTies.StreamExactIff`, `ListingKeyset.StampsNeeded`,
  `FolderWalk.WalksAgreeIffUnique`, `PhotosTimeline.PagesAgreeIff`,
  `PhotosTimeline.WalkExactIff`, `StoredBlocks.ExtractStoredIff`,
  `StoredBlocks.ShippedStoredIff`, `ZoneBlocks.ZonesAreSpans`, `ICalendar.SearchesAgreeIff`,
  `SingleFlight.OutcomeIff`,
  `RecentItems.RunsAgreeIff`, `RecentTies.ListingDecidedIff`, `RecentTies.PruneDecidedIff`,
  `Quota.EnvelopeKeptIff`, `Quota.EnvelopeExactIff`, `Quota.InFlightIff`,
  `GroupNesting.CapOverRuns`, `GroupRaces.RaceIff`, `Propfind.ResponseReadIff`,
  `StoragePath.CanonicalIff`, `DescribeSuffix.UnchangedIff` and `BlobCacheIndex.BackedIff`.

Where the code and its comments disagree, the model follows the code:

- The handler's comment says the streamed REPORT is byte-compatible with the buffered one.
  It is so exactly when the table has no ties (`CalDavTies.StreamExactIff`).
- Every time zone block of a stored body is said to be extracted, in any case. One in another
  case before an exact one is not (`ZoneBlocks.LowerCaseLost`, `ZoneBlocks.ZonesAreSpans`).
- Comments call the second-precision photos cursor truncated. The cast from numeric to
  bigint rounds, so a page can also repeat its last row (`PhotosTimeline.LastRowRepeats`).
- The version comment says `unknown-dirty` survives untouched. It becomes `unknown`
  (`DescribeSuffix.DirtyPeeled`).
- The user envelope is tested after a cast to `i64`. A quota of 2^62 or more can be passed
  (`Quota.EnvelopeLost`), and a size of 2^63 or more counts as negative
  (`Quota.HugeSizeAdmitted`). The drive cap, formed in 128 bits, is exact.
- The depth cap on groups is documented as a bound on nesting. It is one on the subtree
  under the parent of each added edge only, and on its low eight bits
  (`GroupNesting.GrowChain`, `GroupNesting.LiftLongChain`). The nesting stays within the cap
  exactly when every edge is put where its levels fit (`GroupNesting.CapOverRuns`).
- The lock on the parent row is said to keep concurrent additions from slipping past the
  cycle check. Two additions with different parents and children can still close a cycle
  together (`GroupRaces.RacingAdds`). `GroupRaces.RaceIff` says exactly when an
  interleaving stays acyclic, and `GroupRaces.NeverBothWays` what the locks do stop.
- Usage is charged after an upload is judged, so uploads judged together may pass a drive cap
  (`Quota.BothAccepted`), by no more than what was in flight (`Quota.OvershootBounded`).

## Model

| member | source | states |
|---|---|---|
| `CalDavBundles.CollectBuckets` | examples/bench_caldav_parse.rs:220-242 | After the pass, the order lists every UID once by first appearance, the map has exactly those UIDs, and each bucket holds that UID's rows in input order. |
| `CalDavBundles.GroupByUid` | examples/bench_caldav_parse.rs:220-242 | The bundles are, per UID in first-appearance order, its masters before its overrides, each kind in input order. |
| `CalDavBundles.StableSortUnique` | src/application/adapters/caldav_adapter.rs:248-288 | No other arrangement of a bucket puts masters first and keeps both kinds in order, so the in-place stable sort is pinned down. |
| `CalDavBundles.OrderMembers` | examples/bench_caldav_parse.rs:220-242 | The UID order has no repeats and names exactly the UIDs of the rows. |
| `CalDavBundles.BundlesAppend` | examples/bench_caldav_stream.rs:263-299 | Row lists that share no UID can be grouped apart and concatenated. |
| `CalDavBundles.PagedBundles` | examples/bench_caldav_stream.rs:263-299 | For every UID-contiguous row list and every page size, 0 included, grouping the pages one by one gives the bundles of the whole list. |
| `CalDavBundles.CutExact` | examples/bench_caldav_stream.rs:263-299 | The pages hold all rows in order; a page is closed as soon as it has `pageSize` rows and the UID changes, and nowhere else. |
| `CalDavBundles.StreamContiguous` | src/infrastructure/repositories/pg/calendar_event_pg_repository.rs:586-624 | The window order (earliest start of the UID, UID, master before override, start) never returns to a UID it has left. |
| `CalDavBundles.DistinctStartsNoTies` | examples/bench_caldav_stream.rs:263-299 | Distinct start times leave no tie for either listing to break. |
| `CalDavBundles.SameBundles` | src/infrastructure/repositories/pg/calendar_event_pg_repository.rs:269-283 | The start-ordered and the window-ordered listing of one table without ties fold into the same bundles in the same order. |
| `CalDavBundles.StreamedBundles` | examples/bench_caldav_stream.rs:263-299 | For every table without ties, every order the database may return and every page size, the streamed bundles are the buffered ones. |
| `CalDavTies.StreamExactIff` | src/interfaces/api/handlers/caldav_handler.rs:133-142 | The stream folds into what every buffered listing folds into if and only if no two UIDs share their earliest start and no two rows alike start together. |
| `CalDavTies.TieShows` | src/infrastructure/repositories/pg/calendar_event_pg_repository.rs:269-283 | With a tie, two listings the ORDER BY allows fold into different bundles. |
| `CalDavStream.WriteReportPage` | examples/bench_caldav_stream.rs:221-262 | A page's text is the concatenation of its rendered bundles, for any renderer of a bundle. |
| `CalDavStream.BufferedReport` | examples/bench_caldav_stream.rs:221-262 | The buffered report is head, every bundle of the listing, foot. |
| `CalDavStream.StreamedReport` | examples/bench_caldav_stream.rs:263-299 | The look-ahead loop writes exactly the pages cut at UID changes, none lost at the end. |
| `CalDavStream.ReportByteIdentical` | examples/bench_caldav_stream.rs:263-312 | For every renderer, table without ties, listing order and page size, the streamed report has the buffered report's bytes. |
| `CalDavStream.PushEvent` | examples/bench_caldav_stream.rs:92-111 | The line-end fix-up, which looks at the end of the buffer, adds the same text whatever the buffer held, because the shipped exact-first slice is never empty. |
| `CalDavStream.BufferedIcs` | examples/bench_caldav_stream.rs:92-111 | The one-buffer calendar is head, name, all bundles' events, foot. |
| `CalDavStream.StreamedIcs` | examples/bench_caldav_stream.rs:482-517 | With a fresh buffer per page the calendar is head, name, the pages' texts, foot. |
| `CalDavStream.IcsByteIdentical` | examples/bench_caldav_stream.rs:482-517 | For every UID-contiguous row list and page size the paged body has the one-buffer body's bytes. |
| `CalDavZones.ExtractChunks` | src/application/adapters/caldav_adapter.rs:142-161 | The collecting loop returns all slices from a BEGIN to the first END after it, one after the other, for any tags and any body. |
| `ZoneBlocks.ZonesAreSpans` | src/application/adapters/caldav_adapter.rs:142-161 | For every body the zones are disjoint slices in order, each from the first BEGIN the search finds to the first END after it with its line end, until no BEGIN with an END is found; every BEGIN in any case that has an END after it lies in one of them if and only if, wherever the search stands, the first BEGIN in any case is exact or no exact one follows it. |
| `ZoneBlocks.ZonesFound` | src/application/adapters/caldav_adapter.rs:142-161 | Any number of zones written between lines without an exact BEGIN are found again, all of them and in order. |
| `ZoneBlocks.LowerCaseLost` | src/application/adapters/caldav_adapter.rs:76-87 | A zone in lower case before an exact one is passed over. |
| `ZoneBlocks.KeyIsTzid` | src/application/adapters/caldav_adapter.rs:172-187 | A zone is told apart by the value of its first TZID line, in any case of the name and without the spaces around the value. |
| `ZoneBlocks.KeyIsText` | src/application/adapters/caldav_adapter.rs:163-187 | Without a TZID line a zone is told apart by its whole text. |
| `ZoneBlocks.EventIsBlock` | src/application/adapters/caldav_adapter.rs:88-117 | A row whose block stands between lines without tags, time zones included, is exported as that block. |
| `CalDavZones.PushRowsZoned` | src/interfaces/api/handlers/caldav_handler.rs:312-345 | Each row adds the zones not yet written and its event, and the set of written zones grows by exactly the row's zones. |
| `CalDavZones.RenderPage` | src/interfaces/api/handlers/caldav_handler.rs:370-380 | A page rendered into a fresh buffer with the shared zone set gives what its rows give in one buffer. |
| `CalDavZones.StreamedZonedIcs` | src/interfaces/api/handlers/caldav_handler.rs:354-423 | The stream that carries one set of zones from page to page writes head, name, the pages in turn, foot, for every row list and page size. |
| `CalDavZones.ZonedIcsByteIdentical` | src/interfaces/api/handlers/caldav_handler.rs:312-345 | With time zones written once across pages, the streamed file is still the file of the buffered listing, for every table without ties and page size. |
| `CalDavZones.ZonesOnce` | src/interfaces/api/handlers/caldav_handler.rs:312-345 | The bytes written for any rows are zone definitions and events in turn, and among them every zone that a row defines and that was not out before stands once. |
| `CalDavZones.EventsInOrder` | src/interfaces/api/handlers/caldav_handler.rs:312-345 | Writing zones between events loses, repeats and moves no event. |
| `CalDavZones.ZonesBeforeUse` | src/interfaces/api/handlers/caldav_handler.rs:312-345 | Before an event is written, every zone its row defines is out already. |
| `ICalendar.ExtractBegins` | examples/bench_caldav_parse.rs:203-217 | A slice that is found begins with the BEGIN tag in some case and has room for both tags, so it is never empty. |
| `ICalendar.Chunk` | src/application/adapters/caldav_adapter.rs:88-117 | For either search and any pair of tags, a slice that is found has room for the END tag. |
| `ICalendar.SearchesAgreeIff` | src/application/adapters/caldav_adapter.rs:76-117 | The exact-first search and the search in any case agree if and only if the first match in any case is an exact one or there is no exact match at all. |
| `ICalendar.UpperIff` | src/application/adapters/caldav_adapter.rs:76-87 | Texts agree in upper case if and only if they differ in the case of ASCII letters only. |
| `ICalendar.LineEndTaken` | src/application/adapters/caldav_adapter.rs:142-161 | After a tag a CR, a LF or both in that order are taken along, and nothing else. |
| `ICalendar.SplitVevents` | examples/bench_caldav_parse.rs:179-201 | The line loop yields the rendered blocks of the scanner for every text: tags in any case, indentation and stray lines included. |
| `ICalendar.BlocksWellFormed` | examples/bench_caldav_parse.rs:179-201 | Every block of every text begins at a BEGIN line, ends at an END line and has neither in between. |
| `ICalendar.TagLineIff` | examples/bench_caldav_parse.rs:179-201 | A line opens or closes a block if and only if, past any white space, it has the letters of the tag in any case. |
| `ICalendar.ReadBack` | examples/bench_caldav_parse.rs:179-201 | Clean lines written with CRLF are read back as the same lines and one empty last line. |
| `ICalendar.SplitAgain` | examples/bench_caldav_parse.rs:299-311 | For every text, its blocks written out between any neutral lines, in a document with any neutral head and foot, split into the same blocks. |
| `ICalendar.StoredRowsSplit` | examples/bench_caldav_parse.rs:397-400 | Blocks stored one by one in the calendar shell and concatenated split into the same blocks. |
| `StoredBlocks.ExtractStoredIff` | examples/bench_caldav_parse.rs:203-217 | The older slice of a stored block is that block if and only if its BEGIN is not indented and the first END in it closes its last line. |
| `StoredBlocks.ShippedStoredIff` | src/application/adapters/caldav_adapter.rs:76-117 | The shipped slice of a stored block is that block if and only if the exact-first search finds BEGIN at its start and END right before its last line end. |
| `StoredBlocks.ShippedFramedIff` | src/application/adapters/caldav_adapter.rs:76-117 | The same for a block between any lines that show no tag of its own kind. |
| `StoredBlocks.BlockIff` | src/application/adapters/caldav_adapter.rs:88-117 | The same for either search, any tags and any text around a block in which no tag is found before the block's own. |
| `ListingKeyset.NamePageEquivalence` | examples/bench_listing_keyset.rs:180-265 | For every store, parent, limit and row cursor, the branch-limited merge by name equals the filter-then-sort page. |
| `ListingKeyset.ModifiedPageEquivalence` | examples/bench_listing_keyset.rs:268-332 | The same by modification time, when no folder and file of the parent share time and id. |
| `ListingKeyset.PageIsSlice` | examples/bench_listing_keyset.rs:180-332 | In either shape and order, the page after the cursor of row m is the next `limit` rows of the one listing. |
| `ListingKeyset.Drain` | examples/bench_listing_keyset.rs:335-369 | For every store, distinct stamps or not, draining in either shape and order ends at every positive limit and yields the rows of the page walk. |
| `ListingKeyset.WalkIsListing` | examples/bench_listing_keyset.rs:335-369 | Where the order is strict, the page walk is the listing: every row once, in order, for either shape and every positive limit. |
| `ListingKeyset.ListingComplete` | examples/bench_listing_keyset.rs:335-369 | The listing has no repeats and exactly the untrashed rows of the parent. |
| `ListingKeyset.ListingOrdered` | examples/bench_listing_keyset.rs:335-369 | The listing runs from the newest row to the oldest, or through the folders by name and then through the files. |
| `ListingKeyset.StampsNeeded` | examples/bench_listing_keyset.rs:268-369 | In either shape, draining newest first yields every row at every positive limit if and only if no folder and file of the parent share time and id. |
| `FolderWalk.WalkOffset` | examples/bench_folder_keyset.rs:115-143 | The OFFSET walk ends and returns the ordered listing for every positive page size. |
| `FolderWalk.WalkKeyset` | examples/bench_folder_keyset.rs:146-188 | The keyset walk ends and returns the concatenated keyset pages. |
| `FolderWalk.KeysetComplete` | examples/bench_folder_keyset.rs:146-188 | From any cursor, with unique names, the keyset pages concatenate to the ordered listing past the cursor. |
| `FolderWalk.WalksAgreeIffUnique` | examples/bench_folder_keyset.rs:115-188 | Both walks return the same names for every page size if and only if sibling names are unique. |
| `PhotosTimeline.PerDriveCount` | examples/bench_photos_timeline.rs:191-241 | A visible file occurs in the lateral join as often as its drive is accessible. |
| `PhotosTimeline.PagesAgree` | examples/bench_photos_timeline.rs:148-241 | For any number of accessible drives, the newest `limit` of the per-drive newest `limit` are the newest `limit` overall. |
| `PhotosTimeline.PagesAgreeIff` | examples/bench_photos_timeline.rs:148-241 | The two queries agree for every limit if and only if no drive with something to show is accessible twice. |
| `PhotosTimeline.TwoGrantsRepeatDrive` | examples/bench_photos_timeline.rs:132-145 | The grants join does return a drive twice: one direct grant and one through a group. |
| `PhotosTimeline.AccessibleIff` | examples/bench_photos_timeline.rs:132-145 | The join reaches a drive if and only if it is in the photo index and has an unexpired grant to the caller or to one of the caller's groups. |
| `PhotosTimeline.TimelineHolds` | examples/bench_photos_timeline.rs:148-187 | The timeline holds exactly the images and videos of the accessible drives that are not in the trash, each once. |
| `PhotosTimeline.TimelineNewestFirst` | examples/bench_photos_timeline.rs:148-187 | It runs from the newest to the oldest. |
| `PhotosTimeline.PageFromTimeline` | examples/bench_photos_timeline.rs:148-187 | A page after a cursor is the first rows of the full timeline taken before that time. |
| `PhotosTimeline.CursorRounds` | examples/bench_photos_timeline.rs:270-273 | The cursor is the time rounded to the nearest second, halves away from zero. |
| `PhotosTimeline.SecondsCursorExact` | examples/bench_photos_timeline.rs:270-273 | A page continues right after row m if and only if that row's time rounds down and no photo lies earlier in its second. |
| `PhotosTimeline.Walk` | examples/bench_photos_timeline.rs:249-277 | For any files, drives, dates, page size and count, the loop in either shape returns the ids of the pages asked for with second-precision cursors, stopping at an empty one. |
| `PhotosTimeline.WalkExactIff` | examples/bench_photos_timeline.rs:249-277 | In either shape, for each positive page size, any number of pages are the first rows of the timeline, none skipped or repeated, if and only if every page ends on a row whose time rounds down and has no earlier photo in its second. |
| `PhotosTimeline.LastRowRepeats` | examples/bench_photos_timeline.rs:270-273 | A photo taken half a second past the full one comes again on the page after it. |
| `PhotosTimeline.WholeSeconds` | examples/bench_photos_timeline.rs:270-273 | A row with a whole-second time always makes a good page end. |
| `PhotosTimeline.ShapePages` | examples/bench_photos_timeline.rs:148-241 | Either query pages through the timeline by date, the newer one if no drive with something to show repeats. |
| `SingleFlight.StepInv` | examples/bench_blob_cache_index.rs:369-400 | Every atomic action of every task keeps the invariant: one holder per lock, one download per gate, new gates only after failures, success only with the blob cached. |
| `SingleFlight.RunInv` | src/infrastructure/services/cached_blob_backend.rs:579-607 | The invariant holds in every state of every schedule, whichever downloads fail. |
| `SingleFlight.DownloadsBounded` | src/infrastructure/services/cached_blob_backend.rs:579-607 | In every interleaving of any number of tasks and hashes, a blob is downloaded at most once more often than its downloads failed. |
| `SingleFlight.SingleDownload` | examples/bench_blob_cache_index.rs:369-400 | Without failures a blob is downloaded at most once, and exactly once if it is cached. |
| `SingleFlight.NoEarlyReturn` | examples/bench_blob_cache_index.rs:369-400 | No task returns successfully before its own blob is in the cache. |
| `SingleFlight.OutcomeIff` | src/infrastructure/services/cached_blob_backend.rs:579-607 | Over every schedule a task that ends has succeeded, with its blob cached, if and only if the schedule did not make its own download fail; if it failed, the schedule names that failure. |
| `SingleFlight.FailuresAre` | src/infrastructure/services/cached_blob_backend.rs:579-607 | The failures counted for a hash are at most the tasks whose download failed, those are at most the failures scheduled for it, and at the end the count is exact. |
| `SingleFlight.DownloadsByFailures` | src/infrastructure/services/cached_blob_backend.rs:579-607 | A blob is downloaded at most once more often than downloads of its tasks failed. |
| `SingleFlight.AllSucceed` | examples/bench_blob_cache_index.rs:369-400 | Where no download fails, every task that ends has succeeded with its blob cached, no failure is counted, and every blob is downloaded at most once. |
| `SingleFlight.NoDeadlock` | examples/bench_blob_cache_index.rs:369-400 | In every state that keeps the invariant with an unfinished task, some task can step. |
| `SingleFlight.CanFinish` | examples/bench_blob_cache_index.rs:369-400 | Every such state can be run to the end, in a number of steps bounded by the work left. |
| `SingleFlight.FailureAdmitsTwo` | src/infrastructure/services/cached_blob_backend.rs:579-607 | The bound is met: after one failure a waiter and a newcomer both download. |
| `BlobCacheIndex.PathInjective` | examples/bench_blob_cache_index.rs:83-96 | Different hashes have different files, short hashes included. |
| `BlobCacheIndex.WeightsAndBytes` | src/infrastructure/services/cached_blob_backend.rs:97-124 | Summed sizes plus one per empty blob equal summed weights plus what exceeds 32 bits. |
| `BlobCacheIndex.BytesWithinBudget` | examples/bench_blob_cache_index.rs:280-367 | Weights within the budget mean bytes within the budget when no blob exceeds 2^32-1, and otherwise over by at most the unseen part. |
| `BlobCacheIndex.OversizeUnseen` | examples/bench_blob_cache_index.rs:83-96 | A larger blob does go past the budget unseen. |
| `BlobCacheIndex.OthersUntouched` | src/infrastructure/services/cached_blob_backend.rs:97-124 | An action on one blob leaves the entry and the file of every other blob alone. |
| `BlobCacheIndex.HistoryIs` | src/infrastructure/services/cached_blob_backend.rs:570-577 | In every interleaving of writes, inserts, invalidations, unlinks and evictions, the file and the entry of a blob are what the actions on that blob alone make them. |
| `BlobCacheIndex.WrittenSince` | src/infrastructure/services/cached_blob_backend.rs:570-577 | The whole blob is on disk if and only if some action wrote it whole and no later one overwrote it, dropped it or evicted it while indexed. |
| `BlobCacheIndex.IndexedSince` | src/infrastructure/services/cached_blob_backend.rs:570-577 | The blob has an entry of a size if and only if some action indexed it with that size and no later one indexed it anew, forgot it or evicted it. |
| `BlobCacheIndex.BackedIff` | src/infrastructure/services/cached_blob_backend.rs:570-577 | Every entry has its file after every step of a run if and only if, judged by the actions alone, no blob is indexed unless its file was written whole and not cleared since, no indexed blob is overwritten by less, and files are unlinked only while not indexed. |
| `BlobCacheIndex.EvictedBetween` | src/infrastructure/services/cached_blob_backend.rs:570-577 | An eviction between writing a blob again and indexing it leaves an entry without a file. |
| `BlobCacheIndex.Restored` | src/infrastructure/services/cached_blob_backend.rs:570-577 | When one blob is out of step, the next whole write and insert of it puts everything right. |
| `BlobCacheIndex.BlobCache.WriteThrough` | src/infrastructure/services/cached_blob_backend.rs:570-577 | The file, then the entry, whatever the write left: nothing is unlinked, and at most this blob gets out of step. |
| `BlobCacheIndex.BlobCache.Drop` | src/infrastructure/services/cached_blob_backend.rs:171-179 | Without interruption, invalidating an entry and unlinking its file keeps every entry backed and removes no other file. |
| `BlobCacheIndex.BlobCache.EvictForSize` | examples/bench_blob_cache_index.rs:280-367 | One eviction unlinks one file and lowers the total weight by the victim's. |
| `BlobCacheIndex.BlobCache.Settle` | examples/bench_blob_cache_index.rs:280-367 | Within the budget nothing changes; otherwise, whichever victims are chosen, eviction ends within the budget and no later than needed: some evicted entry, put back, exceeds it. One file per lost entry is unlinked, and entries and other files that stay are as they were. |
| `SharedLink.NextInv` | examples/bench_blob_cache.rs:76-110 | Every step of every stream and every passing of time keeps the invariant of slots, sleepers, readers and the byte account. |
| `SharedLink.SlotsDisjoint` | examples/bench_blob_cache.rs:76-110 | In every interleaving, reserved slots are ordered and disjoint and no chunk is sent before its slot has passed. |
| `SharedLink.SlotCarries` | examples/bench_blob_cache.rs:87-96 | A slot lasts as many whole microseconds as the link needs for its bytes. |
| `SharedLink.ReadersInOrder` | examples/bench_blob_cache.rs:76-110 | Every reader always holds a prefix of its own blob, and all of it when its stream has ended. |
| `SharedLink.LinkRespected` | examples/bench_blob_cache.rs:63-110 | All bytes received by time t in n chunks are at most (t+n) microseconds' worth of the link, in spite of the truncating division. |
| `SharedLink.NoIdleTime` | examples/bench_blob_cache.rs:76-110 | In every state reached the next chunk gets the link right after the last slot, or at once if that has passed. |
| `SharedLink.EveryoneServed` | examples/bench_blob_cache.rs:76-110 | Whatever happened so far, the run can go on until every reader has exactly its blob. |
| `RecentItems.StepsAgree` | examples/bench_round13_queries.rs:284-322 | From any table within the cap, pruning always and pruning on insert give the same table, again within the cap, for access, removal and clearing. |
| `RecentItems.RunsAgreeIff` | examples/bench_round13_queries.rs:352-372 | Both recorders give equal tables over every run if and only if nobody starts above the cap. |
| `RecentItems.PruneOfUser` | src/infrastructure/repositories/pg/recent_items_pg_repository.rs:188-211 | A prune leaves the user the first `cap` rows of the newest-first listing and touches no other user. |
| `RecentItems.DeleteMeaning` | src/infrastructure/repositories/pg/recent_items_pg_repository.rs:142-186 | A removal takes exactly the row of the user and item, a clearing exactly the user's rows; other users keep theirs in place. |
| `RecentItems.RecencyMeaning` | src/application/services/recent_service.rs:87-112 | The recency list holds a row exactly when it is the last access of its item by the user. |
| `RecentItems.TableIsRecent` | examples/bench_round13_queries.rs:352-372 | From an empty table, after any accesses in order of time by any users, a user's rows are the `cap` most recently accessed distinct items with their last access times. |
| `RecentTies.ListingDecidedIff` | src/infrastructure/repositories/pg/recent_items_pg_repository.rs:188-211 | There is one newest-first listing of a user's rows the database can use if and only if no two of them have one time. |
| `RecentTies.PruneDecidedIff` | src/infrastructure/repositories/pg/recent_items_pg_repository.rs:188-211 | What a prune leaves is the same for every listing the database may use if and only if the last row with room and the first without have different times. |
| `RecentTies.PrunesDecidedIff` | src/infrastructure/repositories/pg/recent_items_pg_repository.rs:188-211 | That is so at every cap if and only if no two rows of the user have one time. |
| `RecentTies.TieDecidedAnyhow` | src/infrastructure/repositories/pg/recent_items_pg_repository.rs:188-211 | Of two items accessed at one instant, a prune to one row may keep either. |
| `RecentTies.RunMay` | src/application/services/recent_service.rs:87-112 | The run in which ties are broken by position is one of the runs the database may take. |
| `RecentTies.EveryRunRecent` | src/application/services/recent_service.rs:87-112 | However ties are broken, after any accesses whose times do not go back, every row is a last access, nobody exceeds the cap, and a last access is missing only where `cap` rows of its user are as recent. |
| `RecentItems.RecentTable.Touch` | src/infrastructure/repositories/pg/recent_items_pg_repository.rs:111-140 | Afterwards exactly one row has this user and item, with the new time; every other row is kept and none is added; an insert is reported if and only if no row had the key. |
| `RecentItems.RecentTable.RecordAlways` | examples/bench_round13_queries.rs:352-360 | The older recording loop carries the table through the prune-always steps. |
| `RecentItems.RecentTable.RecordOnInsert` | src/application/services/recent_service.rs:87-112 | The newer recording loop carries the table through the prune-on-insert steps. |
| `Quota.CheckSerial` | examples/bench_round12_queries.rs:910-945 | Two reads in a row refuse by the envelope exactly under its whole-number condition, then report a missing drive exactly when there is none, then a full one exactly when used and additional bytes exceed its quota, and accept otherwise. |
| `Quota.CheckFused` | examples/bench_round12_queries.rs:952-996 | One joined row, nulls included, gives the same verdicts under the same conditions for every state with the user in it. |
| `Quota.EnvelopeExactIff` | src/application/services/storage_usage_service.rs:489-521 | The `i64` test answers as whole numbers would if and only if the quota is unlimited, or the sum does not go round, or a negative size still leaves the sum above the quota. |
| `Quota.EnvelopeKeptIff` | examples/bench_round12_queries.rs:923-928 | With sizes that fit an `i64`, admission keeps a user within a positive quota if and only if the quota is below 2^62. |
| `Quota.HugeSizeAdmitted` | src/application/services/storage_usage_service.rs:489-521 | No positive quota holds against sizes of 2^63 and more. |
| `Quota.EnvelopesKept` | examples/bench_round12_queries.rs:910-996 | Over every run of uploads with such quotas and sizes, each judged and charged before the next, every limited user's counter stays exact and within the quota. |
| `Quota.EnvelopeLost` | examples/bench_round12_queries.rs:923-928 | At a quota of 2^62 one admitted upload carries a user past it. |
| `Quota.CapsKept` | src/application/services/storage_usage_service.rs:462-484 | Over every run of uploads of any size, each judged and charged before the next, every capped drive's counter stays exact and within the cap. |
| `Quota.BytesConserved` | examples/bench_round12_queries.rs:910-996 | Over every run a drive holds what it held and exactly the bytes accepted onto it. |
| `Quota.UserBytesConserved` | examples/bench_round12_queries.rs:910-996 | The same for a user and the bytes accepted from them. |
| `Quota.FlightConserved` | src/application/services/storage_usage_service.rs:251-273 | In every interleaving all accepted bytes are charged or in flight, as long as the counter has room for them. |
| `Quota.InFlightIff` | src/application/services/storage_usage_service.rs:251-273 | With judging and charging apart, in every interleaving, a drive's charged and accepted bytes stay within the cap if and only if each accepted upload fits together with what is in flight. |
| `Quota.OvershootBounded` | src/application/services/storage_usage_service.rs:251-273 | In every interleaving the cap is passed by no more than the most that was in flight at an acceptance. |
| `Quota.BothAccepted` | src/application/services/storage_usage_service.rs:251-273 | Two uploads of 6 bytes judged before either is charged pass a cap of 10. |
| `SessionRotation.SameEnd` | examples/bench_round12_queries.rs:541-591 | Revoking and creating in two transactions and in one end in the same tables. |
| `SessionRotation.OnlyTwoStepStrands` | examples/bench_round12_queries.rs:541-591 | From a live session, the two-transaction form has a committed state with the old session revoked and the new one absent, and the fused form has none. |
| `SessionRotation.RotationResult` | examples/bench_round12_queries.rs:541-591 | Afterwards the old session is revoked, the new one is the user's and live, the login is stamped, and nothing else has changed. |
| `GroupExpansion.ClosureLeast` | examples/bench_round11_queries.rs:429-449 | The closure holds the seed, is closed under membership, and lies in every such set. |
| `GroupExpansion.RecursiveUnion` | examples/bench_round11_queries.rs:429-449 | The working-table loop ends on every finite graph, cycles included, with the least fixpoint. |
| `GroupExpansion.ClosureReaches` | examples/bench_round11_queries.rs:429-449 | What the recursive query returns is what a path from its seed reaches. |
| `GroupExpansion.GroupsForUser` | src/infrastructure/repositories/pg/subject_group_pg_repository.rs:524-548 | The groups returned are exactly those the user belongs to, directly or through nested groups. |
| `GroupExpansion.TransitiveUsers` | src/infrastructure/repositories/pg/subject_group_pg_repository.rs:496-522 | Walking down from a group finds exactly the users whose upward walk finds the group. |
| `GroupNesting.ClosesCycle` | src/infrastructure/repositories/pg/subject_group_pg_repository.rs:341-369 | A new edge closes a cycle if and only if its child already reaches its parent. |
| `GroupNesting.AddGroup` | src/infrastructure/repositories/pg/subject_group_pg_repository.rs:334-423 | The add is refused as a cycle exactly when it would make one, and as too deep exactly when the longest path under the parent, taken modulo 256, exceeds eight; the nesting stays acyclic, and from within the cap it stays within the cap exactly when the levels above the parent and under the child fit. |
| `GroupNesting.DepthBelow` | src/infrastructure/repositories/pg/subject_group_pg_repository.rs:370-398 | The level-by-level query ends on every acyclic nesting with the length of the longest path under the parent, as if the new edge were there. |
| `GroupNesting.DepthUnderParent` | src/infrastructure/repositories/pg/subject_group_pg_repository.rs:398-404 | Of what the check accepts, at most eight levels lie under the parent if and only if there are fewer than 256. |
| `GroupNesting.GrowChain` | src/infrastructure/repositories/pg/subject_group_pg_repository.rs:791-797 | The cap does not bound nesting: from no groups at all, built from the top by accepted additions, a chain grows to any depth. |
| `GroupNesting.LiftLongChain` | src/infrastructure/repositories/pg/subject_group_pg_repository.rs:398-404 | A chain of 255 levels, grown that way, is accepted under a new group, because the depth is cut to eight bits. |
| `GroupNesting.WithinIff` | src/infrastructure/repositories/pg/subject_group_pg_repository.rs:370-404 | A new edge keeps an acyclic nesting within n levels if and only if every path into its parent and every path from its child fit together. |
| `GroupNesting.CapKeptIff` | src/infrastructure/repositories/pg/subject_group_pg_repository.rs:370-404 | An addition that makes no cycle keeps a table within the cap if and only if the levels above its parent, the edge and the levels under its child do not exceed it. |
| `GroupNesting.CapOverRuns` | src/infrastructure/repositories/pg/subject_group_pg_repository.rs:370-404 | Over every run from no groups, the nesting is within the cap all the time if and only if every group was added where its levels fit. |
| `GroupNesting.NeverCyclic` | src/infrastructure/repositories/pg/subject_group_pg_repository.rs:290-428 | However users and groups are added and taken out, each change checked and made before the next, no cycle ever arises. |
| `GroupRaces.RaceIff` | src/infrastructure/repositories/pg/subject_group_pg_repository.rs:290-428 | In every interleaving of lock, cycle check, depth check, insert and commit of any number of additions, with removals and users between, the nesting stays acyclic if and only if at no commit an edge committed since that addition's check lets its child reach its parent. |
| `GroupRaces.QuietCommit` | src/infrastructure/repositories/pg/subject_group_pg_repository.rs:341-369 | An addition during which no other edge was committed is not disturbed. |
| `GroupRaces.NeverBothWays` | src/infrastructure/repositories/pg/subject_group_pg_repository.rs:302-308 | In every interleaving the row locks keep two groups from being put into each other. |
| `GroupRaces.RacingAdds` | src/infrastructure/repositories/pg/subject_group_pg_repository.rs:302-308 | Two additions that wait for no lock of each other both pass the check and close a cycle of four. |
| `Xml.ParseEvents` | examples/bench_propfind_xml.rs:82-555 | Events written from trees are properly nested: reading them gives the trees back. |
| `Propfind.KnownIffLive` | examples/bench_propfind_xml.rs:82-107 | A property counts as known exactly when the writer of requested properties emits one element for it, under its own name. |
| `Propfind.KnownIffStandard` | examples/bench_propfind_xml.rs:198-271 | The known properties of a resource, quota included, are exactly those an allprop request lists. |
| `Propfind.OnlyKnownWritten` | examples/bench_propfind_xml.rs:273-414 | Writing the full requested list emits what writing only the known names emits. |
| `Propfind.WriteRequested` | examples/bench_propfind_xml.rs:273-414 | The loop over requested names appends their live elements in request order. |
| `Propfind.WriteStandard` | examples/bench_propfind_xml.rs:181-271 | The standard properties are written as if each had been requested by name. |
| `Propfind.WriteMissing` | examples/bench_propfind_xml.rs:109-141 | A 404 propstat with one empty element per name, in order, or nothing for no names. |
| `Propfind.WriteDead` | examples/bench_propfind_xml.rs:143-179 | A 200 propstat with every dead property and its value, or nothing for none. |
| `Propfind.WriteResponse` | examples/bench_propfind_xml.rs:416-555 | For files and folders, every request, dead list and quota, the events appended are those of one well-formed response tree. |
| `Propfind.NameReadIff` | examples/bench_propfind_xml.rs:109-121 | A namespace-aware client reads a property name back as written if and only if it is a name without a colon in the sense of XML 1.0: a name start character, then name characters. |
| `Propfind.ResponseReadIff` | examples/bench_propfind_xml.rs:416-555 | For every resource, request, href and dead list, a client reads the href, each live name under 200 with its value in the resource (a collection if and only if it is a folder), the missing names under 404 if any and the dead properties under 200 with their stored values if any, if and only if the missing and dead names can stand in tags. |
| `Propfind.EveryNameAnswered` | examples/bench_propfind_xml.rs:416-555 | The 404 names are, in request order, exactly those neither live nor dead; every requested name is answered and no other is. |
| `Propfind.AllPropTells` | examples/bench_propfind_xml.rs:416-555 | An allprop answer lists a live name if and only if the resource has something to say under it, lists all dead properties and misses none. |
| `UploadBody.XmlEscape` | examples/bench_round11_micro.rs:266-279 | The character loop computes the escape of the whole text. |
| `UploadBody.EscapeAppend` | examples/bench_round11_micro.rs:266-279 | Escaping distributes over concatenation. |
| `UploadBody.UnescapeEscape` | examples/bench_round11_micro.rs:266-279 | Unescaping undoes escaping for every text. |
| `UploadBody.EscapeNoMarkup` | examples/bench_round11_micro.rs:266-279 | Escaped text can neither open nor close a tag nor end an attribute. |
| `UploadBody.DatePlain` | examples/bench_round11_micro.rs:347-368 | A date from the fast renderer holds nothing to escape. |
| `UploadBody.BodyEscapedWhole` | examples/bench_round11_micro.rs:298-345 | The loop writes the body with every href and date escaped whole. |
| `UploadBody.BodyEscapedParts` | examples/bench_round11_micro.rs:370-410 | Escaping only the parts that may need it gives the same body, for every user, upload and chunk list. |
| `UploadBodyRead.TokensShow` | examples/bench_round11_micro.rs:298-345 | Tags and texts written out one after the other are read back, where no text holds an opening and no tag a closing bracket. |
| `UploadBodyRead.BodyRead` | examples/bench_round11_micro.rs:298-410 | For every user, upload and chunk list, whatever characters they hold, a client reads the session as a collection with its date and then every chunk in order with its path, its size in decimals, its date and status 200. |
| `ContentDisposition.Utf8DecodeEncode` | examples/bench_round16_micro.rs:155-168 | Decoding the UTF-8 bytes of a name gives the name, for every Unicode string. |
| `ContentDisposition.PercentDecodeEncode` | examples/bench_round16_micro.rs:127-139 | Percent-decoding undoes percent-encoding of any bytes. |
| `ContentDisposition.AttrUnchanged` | examples/bench_round16_micro.rs:170-181 | A name of attribute bytes is its own quoted form and its own encoding, which the fast path rests on. |
| `ContentDisposition.BuildHeader` | examples/bench_round16_micro.rs:170-196 | The fast path or the single buffer gives the header of the three-string form, for every name, type and flag. |
| `ContentDisposition.SafeNoQuote` | examples/bench_round16_micro.rs:155-168 | The quoted name is printable ASCII without quote or backslash. |
| `ContentDisposition.SafeOne` | examples/bench_round16_micro.rs:155-168 | Of one character the quoted name keeps a printable one, an underscore for a quote or backslash, or nothing. |
| `ContentDisposition.PrintableKept` | examples/bench_round16_micro.rs:155-168 | A printable name without quotes and backslashes is quoted as it is. |
| `ContentDisposition.HeaderRead` | examples/bench_round16_micro.rs:155-196 | Read back, the header splits into disposition, quoted name and extended name, and the extended name decodes to the original. |
| `ContentDisposition.InlineIff` | examples/bench_round16_micro.rs:141-153 | The header says inline if and only if that is forced or the type is an image, a video, audio or PDF, and attachment otherwise. |
| `Calendar.YearFound` | src/common/fmt.rs:27-39 | The four divisions find the year of the era that a day lies in, leap years and the last day of the era included. |
| `Calendar.NextDay` | src/common/fmt.rs:27-39 | For every integer day count, negative ones too, the date is valid and one more day is the calendar's tomorrow. |
| `Calendar.CivilIsCalendar` | src/common/fmt.rs:27-39 | The computed date is the Gregorian calendar counted out day by day from 1 January 1970. |
| `Calendar.DaysFromCivilFromDays` | src/common/fmt.rs:27-39 | Every day is found again from its date. |
| `Calendar.FourDigitYear` | src/common/fmt.rs:18-20 | Up to the last second of the stated range the year is between 1970 and 9999. |
| `Formatters.DecimalRead` | src/common/fmt.rs:156-192 | The decimal form reads back as the number. |
| `Formatters.DigitsToTail` | src/common/fmt.rs:160-179 | Digit pairs written backwards into the buffer leave the decimal form at its end. |
| `Formatters.U64Text` | src/common/fmt.rs:183-186 | Every unsigned 64-bit number fits the twenty bytes and is written in full. |
| `Formatters.I64Text` | src/common/fmt.rs:189-196 | The same with a sign for every signed 64-bit number, the smallest included. |
| `Formatters.WriteRfc2822` | src/common/fmt.rs:115-152 | The date fits the 31 bytes and stands at their front, or nothing is returned exactly outside the four-digit years. |
| `Formatters.Rfc2822Read` | src/common/fmt.rs:115-152 | A rendered date names the second it was rendered from. |
| `Formatters.WeekdayShown` | src/common/fmt.rs:115-152 | A rendered date begins with the weekday counted out from Thursday, 1 January 1970, and ends with the offset of UTC. |
| `StoragePath.SplitJoin` | src/domain/services/path_service.rs:141-155 | Splitting two texts joined by a slash is splitting each of them. |
| `StoragePath.Build` | src/domain/services/path_service.rs:108-118 | The one-pass builder yields the path of the safe segments, in order, or the root, and no piece of it is empty, a dot or two dots. |
| `StoragePath.BuiltNoTraversal` | src/domain/services/path_service.rs:102-118 | The pieces of a built path are exactly the given segments that are not empty, not a dot, not two dots and hold no slash, in order. |
| `StoragePath.FromFolderAndName` | src/domain/services/path_service.rs:149-155 | Building from folder path and name is building from the two joined by a slash, folder absent included. |
| `StoragePath.SegmentsOfDisplay` | src/domain/services/path_service.rs:273-280 | The segments come back out of the joined form, so the joined string represents the segment list. |
| `StoragePath.FromStringSafe` | src/domain/services/path_service.rs:137-139 | Whatever the text, the path has exactly its safe segments, and rebuilding it changes nothing. |
| `StoragePath.CanonicalIff` | src/domain/services/path_service.rs:175-183 | The canonical check accepts a path if and only if rebuilding would leave it alone. |
| `StoragePath.FromJoined` | src/domain/services/path_service.rs:165-170 | Adopting or rebuilding gives the path the text names. |
| `StoragePath.Join` | src/domain/services/path_service.rs:208-217 | Appending a safe segment appends to the list; an unsafe one changes nothing; the path stays canonical. |
| `StoragePath.FileName` | examples/bench_round11_micro.rs:1407-1413 | The text after the last slash is the last segment, and the root has none. |
| `StoragePath.Parent` | src/domain/services/path_service.rs:229-241 | Cutting at the last slash drops exactly the last segment, and only the root has no parent. |
| `DescribeSuffix.DescribedStripped` | build.rs:342-369 | For every tag, non-empty count and non-empty hash, of `tag-N-gHASH` and of `tag-N-gHASH-dirty` exactly the tag is left. |
| `DescribeSuffix.UnchangedIff` | build.rs:342-369 | The result is a prefix of the input, and the whole input if and only if it neither ends in `-dirty` nor is a description. |
| `DescribeSuffix.DirtyPeeled` | build.rs:342-345 | One `-dirty` at the end never matters. |
| `DescribeSuffix.BareTagOf` | build.rs:186-211 | Of `vTAG-N-gHASH`, dirty or not, exactly the tag without its `v` is left. |
| `RangedBlob.FillAt` | examples/bench_azure_stream.rs:86-97 | Filling word by word from any offset gives the blob's bytes at that offset. |
| `RangedBlob.Serve` | examples/bench_azure_stream.rs:150-161 | The frames of a range are full but for the last, none is empty, and they concatenate to the range. |
| `RangedBlob.RangesCover` | examples/bench_azure_stream.rs:99-111 | Ranges that follow each other concatenate to the whole, however they are cut. |

## Left out

- Database connections, seeding, indexes, query plans, timing and allocation counts: only the relational meaning of each query is kept.
- Foreign libraries: AES-GCM, Argon2, BLAKE3, JWT, image and EXIF decoding, Tantivy, chrono and the cache's eviction policy. Eviction picks arbitrary victims.
- The XML of one CalDAV bundle is an arbitrary function of the bundle; VTODO and VJOURNAL components are not modelled.
- Face assignment by UNNEST and all float arithmetic.
- The Nextcloud href writer and the two preview file-id parsers: equal by construction.
- GroupNesting.AddGroup: the parent group exists, and additions are taken one at a time; `GroupRaces` has them interleaved.
- GroupNesting.NeverCyclic: changes are one at a time; `GroupRaces.RaceIff` covers interleaved transactions.
- GroupRaces.RaceIff: statements see the last committed table (READ COMMITTED); the verdict of the depth check is arbitrary in a race.
- CalDavZones.StreamedZonedIcs: the task section of the export, which shares the set of written zones, is not modelled.
- Quota.CapsKept: one upload at a time; `Quota.InFlightIff` has judging and charging apart.
- Quota.EnvelopesKept: one upload at a time; the in-flight results are about drive caps, not about the user envelope.
- The formats `rfc3339_utc`, `compact_ical_utc` and `compact_date`: the same digits in other fixed layouts.
- Conversion of operating-system paths, and Unicode normalisation of names.
- Listing and folder walks with page size 0, which do not end in the source.
- PhotosTimeline.WalkExactIff: capture dates of visible media are distinct, and for the newer query no drive with something to show is accessible twice; without that the pages are not determined or do not agree (PagesAgreeIff).
- Quota.CheckSerial: the user must exist, as upload paths resolve the caller first; the source aborts otherwise.
- Quota.CheckFused: the same.
- Formatters.DigitsToTail: the two-digit lookup table is given by its two digits.
- UploadBody.BodyEscapedParts: the general date renderer is a parameter that agrees with the fast one wherever that answers; a clock read for an unrepresentable time is part of that parameter.
- Propfind.WriteResponse: dates, sizes and quota numbers are taken as their printed text, and character escaping belongs to the XML library.
- RecentItems.TableIsRecent: accesses have strictly increasing times, which makes the table unique; `RecentTies.EveryRunRecent` has equal times, where it is not (`RecentTies.TieDecidedAnyhow`).
- RecentItems.RunsAgreeIff: at equal times both recorders are taken to break ties alike, by position in the table, as one database state would.
- SingleFlight.SingleDownload: the cache does not evict while the tasks run.
- BlobCacheIndex.BackedIff: a write is one action with an arbitrary outcome; readers of a file in the middle of a write are not modelled.
- RangedBlob.FillAt: the eight bytes of a block are an arbitrary function of its number.
