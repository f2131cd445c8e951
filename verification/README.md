# The media index and its jobs, verified

The service keeps an index of servable videos in PostgreSQL: a master table, the
sources a video was found in, perceptual hashes, a feed of changes for other
services, and the failures of background jobs.  Several boxes run the jobs that
fill it: one imports a legacy index, one computes missing hashes, one mirrors the
posts of a chain canister, and a lease decides which box may sweep.  This project
models those jobs and tables, and three byte-level algorithms beside them, and
proves what they are for.

`dafny verify dfyconfig.toml` checks everything.

## How it is modelled

The database is the state.  A table is a map or a sequence, a SQL statement is one
step on it, and a transaction (`Database.Connection`) is a private view that a
commit publishes and a rollback forgets.  The cursor sequence is outside the
transaction, so rolled-back inserts burn numbers.  Every statement may fail, and so
may every commit; a ghost counter of those faults lets the contracts say that a job
fails for no other reason.  What downloads, decodes and page sources answer, and what
the cancel token says each time it is asked, are inputs.  Jobs that loop are methods with loops over
such a connection.  Each returns, as a ghost, the trace of what it did; its
`ensures` says that the tables it leaves are those of the trace, and the lemmas
then say what every trace guarantees.

| files | what they hold |
|---|---|
| `media_tables`, `connection`, `servable_video` | the tables, one connection, and what any sequence of upserts leaves |
| `feed_protocol` | the outbox feed with any number of concurrent writers and readers |
| `import_spec`, `media_imports`, `import_properties` | the batched import, its one-row-at-a-time meaning, and what every run guarantees |
| `shards`, `phash_spec`, `media_phash` | shards, selection, backoff, and the hash drain |
| `phash_backfill` | the older hash job that retries until nothing is pending |
| `chain_tables`, `chain_snapshot` | the paged walk, staleness, and the per-creator rollup |
| `sweep_lease` | the lease among all boxes, and one pass of a worker |
| `mp4_scan` | the top-level box scanner, against box lists of ISO/IEC 14496-12 section 4.2 |
| `frame_sampling`, `frame_hash` | which frames are hashed, and the 640-digit hash they make |
| `manifest_log`, `manifest_codec`, `backfill_plan` | the crash-tolerant manifest, a serializer for it, and the plan made from it |
| `sorted_ids`, `machine`, `wrappers` | scans in key order, bytes and machine sizes, and the two failure datatypes |

The main results:

* **Feed.** In every run of the protocol, readers receive each committed event
  exactly once and in order, and replaying the feed rebuilds the hash index.
  Without the lock a concrete run loses an event.  Every call the jobs make on a
  `Database.Connection` takes steps of the protocol or leaves it alone.
* **Import.** However its pages are rolled back and retried, an import leaves the
  tables of a run of one-row transactions over the rows missing at the start.
  Scanned rows are imported or failed, the feed grows by the counted events, a
  second run visits exactly the failed rows, and the circuit breaker fires at the
  fiftieth consecutive SQL failure and never otherwise.
* **Drain.** Each run takes a row at most once and ends; shards partition its
  work; failures back off as min(5 * 2^(k-1), 1440) minutes, across runs.  What it
  stores is the hash of the copy the row names, with that copy's columns.
* **Backfill.** Whatever its batches, a row ends with the hash of its own successful
  attempt, or with its failures counted, and gives up exactly at the maximum.
* **Snapshot.** No source makes it fetch more than 100,000 pages; a post is live
  afterwards exactly when a complete walk saw it; a partial walk makes nothing
  stale, even when recording its end fails.  The users are then exactly the creators
  of the posts seen, with their number and their span.  Against a source that pages a fixed
  list, a walk that ends as complete has seen all of it exactly when every answer
  that leaves some of it for later is full and hands out its last post's cursor.
* **Lease.** Two boxes never hold unexpired grants together, whatever all boxes do,
  and a worker keeps the lease while its renewals are no more than the ttl apart.
* **MP4.** The result of a scan, a verdict or one of four errors, is the one result
  that a list of boxes at the beginning of the file explains.
* **Hash.** Block `i` of a video hash spells the hash of the frame it should show,
  whatever the rounding errors of the sampling.
* **Manifest.** Every byte prefix of the log can be read, so the run after a crash
  while appending repeats at most one thumbnail.  What that run appends can be read
  back exactly if the crash left nothing, or a newline at the end.

What the code does where its own words promise more or say nothing:

* `phash_backfill` with a limit of 0 still writes one row, because the limit is
  tested after a write (`src/jobs/phash_backfill.rs:109-114`).
* The backoff of the drain is said to be capped at a day, but the uncapped interval is
  computed first (`src/jobs/media_phash.rs:459-463`), and after thirty-five failures of
  a row in one phase it is out of range.  The failure can then not be recorded, the run
  ends with that error, and so does every later one that reaches the row:
  `PHashSpec.RefusedAfter34` says exactly when, `PHashSpec.ThirtySixthFailureIsRefused`
  that it happens, and `MediaPHash.StuckRowIsNeverTaken` what it means.
* A short page, an empty one, no cursor, an empty or a repeated one stops a
  snapshot as if its source were exhausted (`src/jobs/chain_snapshot.rs:45-55`), and live posts
  behind it are then tombstoned: `ChainSnapshot.ShortPageTombstones`,
  `ChainSnapshot.EchoTombstones` and `ChainSnapshot.LostCursorTombstones` show it, and
  `ChainSnapshot.CompleteWalkSeesAllIff` says exactly when it does not happen.
* A `SCAN_PAGE_SIZE` of 0 ends the drain and the backfill at once as complete; a
  negative one is a SQL error in the first page.  The import's batch size is kept
  positive (`src/consts.rs:130-137`).
* Appending to a manifest whose last line is torn, or lacks only its newline, glues
  the new entry to it, and the whole log cannot be read any more
  (`ManifestLog.AppendToCutLogReadsIff`, `ManifestCodec.OneAppendTooMany`).
* Shards of more than 2^63 - 2^31 parts are accepted by the request parser, but
  the query then overflows for some hash (`Shards.NoOverflowIff`).

## Model

| member | source | states |
|---|---|---|
| FeedProtocol.StepKeepsInv | src/media_index/feed.rs:20-59 | Every step of any writer or reader keeps the invariant: the log is in cursor order, only the lock holder has pending events and they are past every committed one, readers hold an initial part of the log, and feed and hash table agree |
| FeedProtocol.RunKeepsInv | src/media_index/feed.rs:20-109 | Every reachable state of every interleaving satisfies the invariant |
| FeedProtocol.UncommittedCursorsAreLater | src/media_index/feed.rs:24-59 | In every reachable state an uncommitted cursor exceeds every committed one, although rollbacks burn numbers |
| FeedProtocol.ReadersMissNothing | src/media_index/feed.rs:20-109 | What a re-polling reader has received is an initial part of the committed log, whatever the limits and interleaving: each event once, in order, none skipped |
| FeedProtocol.LogOnlyGrows | src/media_index/feed.rs:20-59 | The committed log of a later state extends that of an earlier one, so nothing becomes visible behind a reader |
| FeedProtocol.ReadsMakeProgress | src/media_index/feed.rs:61-109 | A read moves its reader on by its page; a page shorter than the limit has caught it up with the log |
| FeedProtocol.TheQueryHasOneAnswer | src/media_index/feed.rs:61-109 | However the rows are stored, a page is returned if and only if the limit is in 1..500, it is the first `limit` rows past the cursor, in order, and the kinds of all are known; exactly the other limits are refused as such |
| FeedProtocol.ReadsSucceed | src/media_index/feed.rs:61-109 | In every reachable state a read succeeds exactly if its limit is in 1..500: no writer appends a kind the code does not know |
| FeedProtocol.PageIsNextStretch | src/media_index/feed.rs:61-109 | A page read at a reader's position is exactly the next stretch of the log |
| FeedProtocol.ReplayRebuildsTheHashIndex | src/media_index/repo.rs:260-366 | In every reachable state, replaying committed hash events in cursor order gives exactly the committed hash values, across unchanged upserts, several writers and rollbacks |
| FeedProtocol.StepKeepsAgreement | src/jobs/media_phash.rs:274-327 | Each step keeps the committed feed, and every open transaction's own events, in agreement with the hashes they retell |
| FeedProtocol.RunKeepsRowLocks | src/media_index/repo.rs:308-345 | In every reachable state no two open transactions have locked the same hash row, and each has locked every row it has written |
| FeedProtocol.LockHolderIsOpen | src/media_index/feed.rs:24-31 | In every reachable state the advisory lock is held by a transaction that has not ended, if at all |
| FeedProtocol.OthersLeaveLockedRows | src/media_index/repo.rs:308-345 | What a transaction sees of a hash row it has locked, no step of others changes: an upsert found Unchanged is still unchanged when it commits |
| FeedProtocol.StepAloneIsStepAmongOthers | src/media_index/feed.rs:20-59 | A step a transaction takes alone, as those of a connection are, it also takes among any other transactions and readers, provided none of them holds the row or advisory lock it asks for |
| FeedProtocol.WithoutTheLockAReaderSkips | src/media_index/feed.rs:24-31 | Without the advisory lock there is a run in which a reader's cursor passes a committed event it never received |
| MediaTables.MatchesIffUpdateIsIdle | src/media_index/repo.rs:220-258 | The material match holds if and only if the COALESCE update would change no material column |
| MediaTables.OutcomesTell | src/media_index/repo.rs:26-380 | Inserted is reported exactly for a key that was not there, Unchanged of a hash exactly when the table stays as it is, and a source as new exactly when the source table grows |
| MediaTables.AsI32Wraps | src/jobs/media_phash.rs:277 | The cast of a length wraps around into 32 bits, and keeps every length below 2^31 |
| MediaTables.HashWritesKeepAgreement | src/media_index/repo.rs:260-366 | A hash upsert followed by its event keeps replay and table in agreement; an unchanged one leaves the table as it is and needs no event |
| MediaTables.VisibilityEventKeepsAgreement | src/jobs/media_imports.rs:114-132 | A visibility event does not disturb the replay of hashes |
| Database.Connection.Begin | src/jobs/media_imports.rs:237-238 | A transaction starts from the committed tables, as a Begin step of the feed protocol |
| Database.Connection.Commit | src/jobs/media_imports.rs:254-255 | A commit publishes the view whole, as a Commit step of the feed protocol, which needs every changed hash to be announced; a failed one publishes nothing |
| Database.Connection.Rollback | src/jobs/media_imports.rs:261-264 | A rollback forgets the view, as a Rollback step of the feed protocol; burnt cursors stay burnt |
| Database.Connection.UpsertServableVideo | src/media_index/repo.rs:26-218 | The insert, the source row, the locked check and the COALESCE update leave the tables of one upsert; the outcome says Inserted, Changed or Unchanged, and whether the source row was new |
| Database.Connection.SetSourcePayload | src/jobs/media_imports.rs:376-426 | The payload lands on an existing source row only |
| Database.Connection.UpsertHashRecord | src/media_index/repo.rs:260-380 | The table holds the record afterwards, the outcome tells whether it was new, different or the same, and the call is an Upsert step of the feed protocol that owes an event unless Unchanged |
| Database.Connection.AppendFeedEvent | src/media_index/feed.rs:20-59 | A successful append adds the event under the next cursor, as a Lock and an Append step of the feed protocol that may only announce what is owed; a failed one adds nothing but may burn the cursor |
| Database.Connection.WriteFailure | src/jobs/media_imports.rs:485-522 | The failure row under the key is replaced, or nothing changes |
| Database.Connection.DeleteFailures | src/jobs/media_phash.rs:319-326 | Exactly the failures of that job and video are gone, and the others are as they were |
| Database.Connection.SetJobStatus | src/jobs/media_imports.rs:524-560 | The run's status is the one set, unless the statement fails |
| ServableVideo.ColumnsAfterUpserts | src/media_index/repo.rs:26-193 | After any sequence of upserts each nullable column holds its last non-null input, `source_ref` its first, and the mandatory columns their last |
| ServableVideo.SourcesAfterUpserts | src/media_index/repo.rs:195-218 | The source table has gained exactly the (kind, ref) pairs supplied, new ones without a payload, and no stored payload is lost |
| ServableVideo.OtherVideosUntouched | src/media_index/repo.rs:26-193 | Upserts of one video leave every other master row, the hashes, the feed and the failures alone |
| ServableVideo.RepeatedUpsertIsUnchanged | src/media_index/repo.rs:26-193 | Unchanged is reported exactly when the row exists and stays as it is; repeating an upsert is Unchanged and changes nothing |
| MediaImports.ImportOneRow | src/jobs/media_imports.rs:94-189 | One row in a transaction leaves what its import means, with the matching counters; keyless rows are recorded, not refused |
| MediaImports.ImportMediaRow | src/jobs/media_imports.rs:376-426 | The upsert, payload and visibility event of one row; the event is appended exactly when the upsert was not Unchanged |
| MediaImports.ImportHashRow | src/jobs/media_imports.rs:134-186 | A legacy hash is upserted, and announced exactly when it was not Unchanged |
| MediaImports.RecordRowFailure | src/jobs/media_imports.rs:485-522 | The failure of a row and phase is on record, a repeated one with a new message |
| MediaImports.RecordInOwnTransaction | src/jobs/media_imports.rs:277-287 | The failure row of a row that hit a SQL error is committed alone, or nothing is |
| MediaImports.FetchMissing | src/jobs/media_imports.rs:344-374 | A page is ascending, within the limit, of missing rows past the cursor, and what it omits comes after a full page; an empty one means no row past the cursor is missing |
| MediaImports.ImportPage | src/jobs/media_imports.rs:235-252 | A page in one transaction leaves the view of a committed step per row, with the sum of their counters |
| MediaImports.ImportRowAlone | src/jobs/media_imports.rs:264-300 | A row alone ends as one committed step or one recorded SQL failure; its counters and the consecutive-failure count stay in step, also when it trips the breaker |
| MediaImports.ImportRowByRow | src/jobs/media_imports.rs:260-301 | The fallback visits the page's rows in order, one step each |
| MediaImports.ImportOnePage | src/jobs/media_imports.rs:235-301 | Whether a page commits whole or is rolled back and retried, it has become steps of its rows with matching counters |
| MediaImports.ImportInner | src/jobs/media_imports.rs:191-322 | The tables left are those of a run of one-row steps over an initial part of the scan of missing rows; the summary is its tally; it is cancelled exactly when the token said so the last time it was asked, stops otherwise only at its limit or with all rows visited, and without a failing statement it succeeds with every row committed |
| MediaImports.ImportCurrentVideoIndex | src/jobs/media_imports.rs:56-88 | The same for the whole job; a negative limit changes no table; the breaker error is returned if and only if the trace has just reached it |
| ImportProperties.ScanIsOneRowAtATime | src/jobs/media_imports.rs:211-301 | A trace is an initial part of the scan of the rows missing at the start if and only if each step took the first row then missing after the cursor |
| ImportProperties.ScanInKeys | src/jobs/media_imports.rs:344-374 | A trace is such a scan if and only if its rows are, in id order, rows of the legacy table that the master table lacked, none of them passed over |
| ImportProperties.CompleteIffNoneLeft | src/jobs/media_imports.rs:227-233 | It is complete exactly when every legacy row that the master table lacked is in it |
| ImportProperties.NothingLeftIffAllVisited | src/jobs/media_imports.rs:227-233 | The next page is empty exactly when every row missing at the start has been visited |
| ImportProperties.Conservation | src/jobs/media_imports.rs:246-302 | Imported plus failed rows are the scanned rows, and the feed has grown by exactly the counted events, however many pages were rolled back |
| ImportProperties.EveryHashIsAnnounced | src/jobs/media_imports.rs:134-186 | With hashes referencing master rows, every legacy hash of a committed row is counted and announced |
| ImportProperties.VisitedRowsAreSettled | src/jobs/media_imports.rs:94-189 | At the end each visited row is in the master table with its source and hash as imported and its event in the feed, or is absent with its failure on record |
| ImportProperties.CommittedRowIsServed | src/jobs/media_imports.rs:94-132 | In the legacy row's own columns: with a Storj key the master row and its event serve that key in the SFW bucket, with only a Hetzner key that one and no bucket; with neither the row is absent and the failure says so |
| ImportProperties.FailedRowIsOnRecord | src/jobs/media_imports.rs:264-300 | A row that hit a SQL error is absent and its error is on record |
| ImportProperties.CommittedHashIsStored | src/jobs/media_imports.rs:134-186 | The legacy hash is stored under its own kind and version, with its length, and as computed from the Hetzner copy if there is one, else from the Storj copy |
| ImportProperties.OnlyLegacyHashesAreStored | src/jobs/media_imports.rs:134-186 | The hash table has gained exactly the hashes of committed rows that have a key and all three hash columns |
| ImportProperties.FailuresAfterRun | src/jobs/media_imports.rs:485-522 | The failure row of a video and phase has the new message and its old count and retry time, or is new with neither, if the video failed in that phase; every other failure row is as before |
| ImportProperties.SecondRunScansTheFailures | src/jobs/media_imports.rs:344-374 | After a complete run the rows still missing are exactly those that failed |
| ImportProperties.ImportKeepsAgreement | src/jobs/media_imports.rs:134-186 | Any import keeps the feed's replay in agreement with the hash table |
| ImportProperties.TrailingCountsTheLastFailures | src/jobs/media_imports.rs:272-300 | The count is at least n exactly when the last n rows failed with SQL errors |
| ImportProperties.BreakerIsExact | src/jobs/media_imports.rs:287-299 | The breaker is silent exactly while no fifty consecutive rows, joined across pages, failed with SQL errors |
| ImportSpec.RestOfScan | src/jobs/media_imports.rs:344-374 | Rows imported behind the cursor do not disturb the scan ahead of it |
| SortedIds.FirstRowsAreThePage | src/jobs/media_imports.rs:344-374 | A query with ORDER BY and LIMIT has one answer: the first rows of the ordered scan |
| Shards.ShardIsResidue | src/media_index/repo.rs:414-494 | Despite SQL's truncated remainder of negative hashes, a shard is the mathematical residue |
| Shards.NoOverflowIff | src/media_index/repo.rs:414-494 | Every hash has a shard exactly when the count is at most 2^63 - 2^31 |
| Shards.ParseShardIff | src/routes/media.rs:102-108 | No pair means no shard; half a pair, or an index outside the count, is refused; any other pair is taken |
| PHashSpec.ShardsPartition | src/routes/media.rs:102-108 | For every table, instant and such count, the selections over the indices the parser accepts are disjoint and union to the unsharded one |
| PHashSpec.SelectionIs | src/media_index/repo.rs:414-494 | The selection is the rows of the master table past the cursor without the canonical hash, with no wait running, whose text hash has the shard's residue |
| PHashSpec.GateAgreesWithSelection | src/media_index/repo.rs:529-554 | The gate is open if and only if the unsharded selection is not empty |
| PHashSpec.BackoffIsExponential | src/jobs/media_phash.rs:429-476 | From any table: k failures in a phase since the last success are counted on top of what was on record, and the row waits until the last failure plus the backoff of that count; a row is there exactly when one was and no success came, or k is positive |
| PHashSpec.FailedRowWaits | src/media_index/repo.rs:410-413 | Until that time no selection holds the row, whatever failures were on record before |
| PHashSpec.SelectableIff | src/media_index/repo.rs:410-494 | After any drains a video is selectable if and only if it is in the master table without its hash and every wait on it, of each phase and of other jobs, is over |
| PHashSpec.DrainsCompose | src/jobs/media_phash.rs:69-238 | Successive drains are one trace, so the backoff counts across them |
| PHashSpec.BackoffDoublesToADay | src/jobs/media_phash.rs:429-476 | The wait is five minutes, doubles with each failure, and stays at 1440 |
| PHashSpec.FitsUpTo34 | src/jobs/media_phash.rs:459-463 | The uncapped backoff fits a 64-bit interval exactly up to thirty-four earlier failures |
| PHashSpec.RefusedAfter34 | src/jobs/media_phash.rs:429-476 | After any trace from any table, the database takes a failure of a row and phase if and only if those on record before and those since the last success are at most thirty-four |
| PHashSpec.ThirtySixthFailureIsRefused | src/jobs/media_phash.rs:429-476 | From any table without failures of a row in a phase, thirty-five failures are recorded and the next one is refused |
| PHashSpec.NeverPast35 | src/jobs/media_phash.rs:429-476 | No failure row of the drain ever counts more than thirty-five |
| PHashSpec.DrainKeepsAgreement | src/jobs/media_phash.rs:274-327 | Any sequence of drain outcomes only grows the feed and keeps its replay in agreement with the hash table |
| MediaPHash.Compute | src/jobs/media_phash.rs:131-197 | The outcome of a row is what its copy in the store it names gives, in the branches of the code |
| MediaPHash.OutcomeIsThatOfTheCopy | src/jobs/media_phash.rs:131-197 | In the row's columns: the key it holds is read from Hetzner, or from Storj, also when it names no provider; without a key, or with another provider, nothing is read and the failure says which; a failed download and a failed decode have their own phase and message |
| MediaPHash.PersistOne | src/jobs/media_phash.rs:267-338 | One outcome is committed whole or not at all; the counters move exactly as the table did; it fails only on a failing statement or on a failure that the database cannot record |
| MediaPHash.FetchSelection | src/media_index/repo.rs:414-494 | A page is ascending, within the limit, of eligible rows of the shard past the cursor, and what it omits comes after a full page |
| MediaPHash.DrainPage | src/jobs/media_phash.rs:125-219 | A page's rows are each taken once, in any order, and recorded in the order of the clock; a cancel leaves the rest untaken, and the counters match the trace |
| MediaPHash.SweepPage | src/jobs/media_phash.rs:96-219 | One fetch and its drain move the cursor on and step over no row that was eligible at the start |
| MediaPHash.RunInner | src/jobs/media_phash.rs:69-238 | The drain ends, takes no row twice, records in the order of the clock what each row's copy gives, and counts scanned as hashed plus failed; it is cancelled exactly when the token said so the last time it was asked, and otherwise, with a positive page size and no limit reached, has taken every row that was selected at its start; it fails only on a failing statement, a negative page size or limit, or a row whose failure cannot be recorded, and always if such a row is selected, it is not cancelled and there is no limit |
| MediaPHash.OutcomesAreDurable | src/jobs/media_phash.rs:267-338 | At the end of a drain every success is stored and announced with no failure left, and every failure is on record, without a hash, and waits between five minutes and a day |
| MediaPHash.HashedIsStored | src/jobs/media_phash.rs:274-327 | A success in its columns: the hash and metadata under the canonical kind, version and input version, 10 hashes of size 8, its length in bits, and the provider, bucket and key of the master row; announced, and with no failure of the drain left |
| MediaPHash.FailedIsOnRecord | src/jobs/media_phash.rs:328-333 | A failure in its columns: no canonical hash, the message under its phase, and a retry between 5 and 1440 minutes after it |
| MediaPHash.StuckRowIsNeverTaken | src/jobs/media_phash.rs:206-219 | No drain gets past a row with more than thirty-four failures in the phase in which it fails |
| MediaPHash.HashesCount | src/jobs/media_phash.rs:313-314 | The counter of hashes is the number of successful steps |
| MediaPHash.FailedInDrainWaits | src/jobs/media_phash.rs:429-476 | What failed in a drain no selection holds before five minutes after the drain's start |
| MediaPHash.StaysEligible | src/media_index/repo.rs:410-494 | Steps on other videos, and time, leave an eligible row eligible |
| MediaPHash.SuccessIsNew | src/jobs/media_phash.rs:274-312 | The hash of a fetched row is new when it is stored, so every success is counted and announced |
| PHashBackfill.FailureUsesAnAttempt | src/db.rs:348-367 | Every failure of an eligible row strictly decreases the sum of attempts left |
| PHashBackfill.SuccessEndsARow | src/db.rs:323-345 | So does every success |
| PHashBackfill.JobDb.FetchPendingBatch | src/db.rs:298-320 | A batch is jobs that are pending, with a Hetzner key and without a hash, as many as the limit allows, and all of them when it is short |
| PHashBackfill.JobDb.UpdatePHashSuccess | src/db.rs:323-345 | The hash is stored, and the job moves on only from pending, keeping its retry count |
| PHashBackfill.JobDb.UpdatePHashFailure | src/db.rs:348-367 | The count goes up by one and the job gives up exactly when it reaches the maximum; no job is an error |
| PHashBackfill.WriteAttempt | src/jobs/phash_backfill.rs:81-107 | A success stores its own hash, kind and version and moves the job on; a failure stores its own error, counts one more, and gives up exactly at the maximum; either uses up work and leaves every other row alone |
| PHashBackfill.EveryRowAfter | src/jobs/phash_backfill.rs:81-107 | After any run a row with attempts was pending with a copy and without a hash, and all its attempts but the last one failed, none of them for the last allowed time; it holds the hash, kind and version of the last attempt, or its error with one more failure for each attempt, given up exactly if that is the maximum; a row without attempts is untouched |
| PHashBackfill.NoNewWork | src/jobs/phash_backfill.rs:24-35 | No row becomes eligible during a run |
| PHashBackfill.Run | src/jobs/phash_backfill.rs:16-120 | The loop ends; the tables are those of its attempts, each of them what the copy of its row gave; when nothing is pending any more every row that was to do has its hash and status, or has failed at least the maximum number of times; all other rows are untouched; limit and total are related exactly; it is cancelled exactly when the token said so before a batch, and fails only on a failing statement or a negative page size |
| ChainTables.StagedRows | src/media_index/chain_repo.rs:20-52 | After staging a list of posts a row shows the last post with a video under its id, column by column, or is what it was before |
| ChainTables.StagingTombstonesNothing | src/jobs/chain_snapshot.rs:95-147 | Staging alone makes no live post stale |
| ChainTables.DistinctPostsStagedAsTheyAre | src/media_index/chain_repo.rs:20-52 | When no id repeats, the row of every post with a video has its video, creator, time and status, carries the run and is not stale |
| ChainTables.LiveIffSeen | src/media_index/chain_repo.rs:54-63 | After a complete walk under a new run id a post is live if and only if the walk saw it with a video |
| ChainTables.RollupCountsAndSpans | src/media_index/chain_repo.rs:65-88 | A creator has a rollup exactly when it has live posts; the rollup counts them and spans exactly their times |
| ChainTables.CompleteWalkRollsUp | src/media_index/chain_repo.rs:65-88 | After a complete walk under a new run id over posts with distinct ids, whatever the tables held, the users are exactly the creators of the posts with a video, each with their number and their first and last time |
| ChainTables.WithVideoCounts | src/jobs/chain_snapshot.rs:108-121 | The counter of posts is the number of listed posts with a video |
| ChainSnapshot.ChainDb.UpsertChainPost | src/media_index/chain_repo.rs:20-52 | The post's row has its video, creator, time and status, carries this run and is live, or nothing changes |
| ChainSnapshot.ChainDb.MarkStalePosts | src/media_index/chain_repo.rs:54-63 | Exactly the rows of other runs, or of none, are stale afterwards beside those that were; their other columns stay |
| ChainSnapshot.ChainDb.RebuildYralUsers | src/media_index/chain_repo.rs:65-88 | Whatever the rollup held, it is the group-by of the live posts afterwards |
| ChainSnapshot.StagePage | src/jobs/chain_snapshot.rs:107-121 | A page stages every post with a video, in order, and counts the others as skipped |
| ChainSnapshot.Walk | src/jobs/chain_snapshot.rs:95-147 | Against any source: at most 100,000 pages, each the answer to the cursor before it; upserted plus skipped is the number of posts; the walk is cancelled, limited, cut off or complete each under an exact condition on source, token and limit, and fails only on a failing statement or where the source has no answer |
| ChainSnapshot.RunChainSnapshot | src/jobs/chain_snapshot.rs:76-190 | Whatever the result, posts are only staged and the rollup is as it was unless the walk exhausted its source; then posts are also marked stale, and an Ok result has both done: under a new run id, over distinct ids, the users are exactly the creators of the posts seen, with their number and span |
| ChainSnapshot.StopsIff | src/jobs/chain_snapshot.rs:45-55 | A walk stops after a page of fewer than 100 posts, one with no or an empty next cursor, and one with the same next cursor as the page before |
| ChainSnapshot.PagedWalk | src/jobs/chain_snapshot.rs:45-55 | Against a source that pages a fixed list of distinct ids, with any page sizes and with its last post's cursor, the caller's own, none or an empty one, the walk has the list as far as its answers reach, and stops exactly at a short page or at any cursor but the last post's |
| ChainSnapshot.CompleteWalkSeesAllIff | src/jobs/chain_snapshot.rs:45-55 | A walk that ended as complete has seen the whole list if and only if every answer of its source that does not reach the end of the list is full and hands out the cursor of its last post |
| ChainSnapshot.ListedPostIsLiveIff | src/jobs/chain_snapshot.rs:150-155 | After such a snapshot a post of the list with a video is live exactly if the walk got to it; a row behind that is tombstoned |
| ChainSnapshot.ShortPageTombstones | src/jobs/chain_snapshot.rs:45-55 | A one-post page of a two-post list makes the second post, live before, stale |
| ChainSnapshot.EchoTombstones | src/jobs/chain_snapshot.rs:45-55 | So does a full second page that hands the first page's cursor back |
| ChainSnapshot.LostCursorTombstones | src/jobs/chain_snapshot.rs:45-55 | So does a full first page that comes without a cursor, or with an empty one |
| ChainSnapshot.HonestWalk | src/jobs/chain_snapshot.rs:45-55 | After n pages of a source that pages a fixed list of distinct ids, the walk has its first 100 n posts and stops exactly past its end |
| ChainSnapshot.HonestSnapshotCompletes | src/jobs/chain_snapshot.rs:95-147 | Against such a source a walk that is not cut short has completed after one page more than the hundreds in the list, with every post with a video staged as it is and the users their creators |
| SweepLease.RunKeepsInv | src/media_index/repo.rs:751-783 | In every run of any boxes, a box with an unexpired grant owns the row and the heartbeat is its owner's last grant |
| SweepLease.GrantsExclude | src/media_index/repo.rs:751-772 | Two boxes never hold unexpired grants together |
| SweepLease.GrantedBoxOwnsUntilTtl | src/media_index/repo.rs:751-783 | A box granted the lease at t that does not release it owns the row until t + ttl, whatever all boxes do |
| SweepLease.SilentBoxIsReplaced | src/media_index/repo.rs:751-772 | Once more than the ttl has passed with no step, whoever asks next gets the lease |
| SweepLease.DiscoveryDueIff | src/jobs/worker.rs:13-25 | Discovery is due at once without a stamp, else exactly from one interval after it on, where an interval beyond 2^63 - 1 milliseconds counts as that |
| SweepLease.CadenceBelongsToTheOwner | src/media_index/repo.rs:774-832 | After any run of any boxes the row carries a discovery time if and only if the last stamp or release by a box owning the row at that moment was a stamp with that time |
| SweepLease.OthersReach | src/media_index/repo.rs:751-832 | Other boxes can take the row only after its heartbeat is older than the ttl, and never give it to this box |
| SweepLease.Worker.AcquireOrRenew | src/media_index/repo.rs:751-772 | Granted if and only if the row was free, already this box's, or expired; then the row is this box's with a new heartbeat and the old stamp |
| SweepLease.Worker.ReleaseLease | src/media_index/repo.rs:774-783 | Afterwards this box owns nothing; another owner's row is untouched |
| SweepLease.Worker.SetLastDiscoveryAt | src/media_index/repo.rs:816-832 | Only the owner's row is stamped |
| SweepLease.Worker.Await | src/jobs/worker.rs:36-67 | While this box waits, others change the row only as the lease allows, and flags only if this pass does not hold them |
| SweepLease.Worker.RunWithHeartbeat | src/jobs/worker.rs:36-67 | With any pauses and failed renewals, as long as the heartbeat never gets older than the ttl the lease stays this box's, with its stamp |
| SweepLease.MissedRenewalsAreTolerated | src/jobs/worker.rs:46-54 | With pauses of at most a gap, m failed renewals in a row are survived whenever the age at the start and (m + 1) gaps fit into the ttl |
| SweepLease.TwoMissesAreTolerated | src/jobs/worker.rs:46-54 | Renewing every third of the ttl survives two missed renewals in a row |
| SweepLease.Worker.DrainIfFree | src/jobs/worker.rs:135-147 | The drain runs exactly if there is work and no other task drains, and the lease is kept while the heartbeat keeps up |
| SweepLease.Worker.DiscoverIfDue | src/jobs/worker.rs:149-159 | While the heartbeat keeps up, discovery runs exactly if the cadence can be read, it is due and no other task imports: not before an interval after the stamp, always from then on, and at once without one; the cadence is stamped with its end exactly if it ran; a failing statement, and nothing else, ends it with an error |
| SweepLease.Worker.RunOnePass | src/jobs/worker.rs:115-163 | It is elected exactly if the lease may be taken; not elected, nothing happens; elected, it drains exactly if there is work and no drain runs, discovers, while its heartbeat keeps up, exactly if an interval has passed since the stamp or there is none, and no import runs, stamps the cadence exactly if it discovered, gives its flags back, and is the owner at the end; it fails exactly on a failing statement of its own |
| Mp4Scan.Mp4MoovPosition | src/transcode.rs:36-96 | The loop computes the scan that the following lemmas are about, on every byte sequence |
| Mp4Scan.ScanMeetsTheBoxList | src/transcode.rs:36-96 | On every serialized box list, with 32-bit, 64-bit or to-end sizes, the scan is the list's verdict: before if a moov precedes the first mdat, after if an mdat precedes the first moov, an error if one is missing |
| Mp4Scan.ScanIsExact | src/transcode.rs:36-96 | For every file, the scan gives a result, verdict or error, if and only if some list of boxes at the beginning of the file explains it: the boxes have that verdict; or they have none, and the file ends there, or goes on with a size that is truncated, overflows, or does not fit |
| Mp4Scan.PayloadsAreNotHeaders | src/transcode.rs:41-93 | Two files with the same kinds of boxes scan alike whatever their payloads, size forms and trailing bytes |
| Mp4Scan.ReadsTheBox | src/transcode.rs:42-78 | Standing before a serialized box the scanner reads exactly its size and kind |
| Mp4Scan.ReadIsABox | src/transcode.rs:42-78 | Whatever the scanner accepts as a box is the serialization of one |
| Mp4Scan.BoxLayout | src/transcode.rs:42-78 | A serialized box is its size in four bytes, its kind, its size in eight bytes if it is large, and its payload |
| Mp4Scan.BigEndianBytes | src/transcode.rs:42-61 | A four-byte number weighs its first byte most, and an eight-byte number its first half |
| Mp4Scan.KindsAreSpelled | src/transcode.rs:76-80 | The two kinds the scanner looks for are spelled moov and mdat |
| FrameSampling.TargetIsNearest | crates/phash/src/lib.rs:139-149 | Each target, computed exactly, is the frame nearest to its share i(n-1)/9 of the video, and never a tie |
| FrameSampling.FloatingPointTargets | crates/phash/src/lib.rs:139-149 | Up to 2^46 frames, however the two double operations round, the rounded target is the exact one |
| FrameSampling.TenDistinctTargets | crates/phash/src/lib.rs:139-149 | From ten frames on the targets strictly increase from 0 to n-1 |
| FrameSampling.EveryFrameIsATarget | crates/phash/src/lib.rs:139-149 | With at most ten frames the targets are exactly the frames |
| FrameSampling.UnknownCountTargetsTheFirst | crates/phash/src/lib.rs:139-149 | With an unreported count the only target is the first frame |
| FrameSampling.ReceiveFrames | crates/phash/src/lib.rs:155-209 | Frames of one packet, or of the flush, are counted, and kept when wanted; extraction is full at ten |
| FrameSampling.ExtractFrames | crates/phash/src/lib.rs:103-214 | Every target frame that converts is extracted, in order; the reported count is the stream's if it is positive, else the number of decoded frames, and stopping at the tenth frame changes neither |
| FrameSampling.FramesInOrder | crates/phash/src/lib.rs:155-182 | The decoded frames are those of each packet of the stream that the decoder takes, packet after packet |
| FrameSampling.CopyRgb24FrameData | crates/phash/src/lib.rs:302-333 | A buffer is accepted exactly when the stride holds a row, the image size fits 64 bits and the last row is there; then the rows are copied; a row too wide, a short stride and an image too large are each reported as such |
| FrameSampling.RowContents | crates/phash/src/lib.rs:319-330 | Byte x of row y of the copy is byte x of row y of the frame, without the padding |
| FrameSampling.CopiedBytes | crates/phash/src/lib.rs:319-330 | The same in plain offsets: byte y times width plus x of the copy is byte y times stride plus x of the buffer |
| FrameHash.HashToBinaryString | crates/phash/src/lib.rs:258-269 | The loops spell the hash's bytes, highest bit first |
| FrameHash.BitStringRoundTrip | crates/phash/src/lib.rs:258-269 | Reading the digits back gives the bytes |
| FrameHash.DigitsOfByte | crates/phash/src/lib.rs:258-269 | The eight digits of byte k are its bits from 128 down to 1 |
| FrameHash.BlocksSpellTheHashes | crates/phash/src/lib.rs:82-98 | Every video hash has 640 digits, block i spells frame hash i mod k, and reads back as it |
| FrameHash.HashVideo | crates/phash/src/lib.rs:61-101 | The result is the cyclic fill of the hashes of the wanted frames, or an error when there are none |
| FrameHash.EveryBlockShowsItsFrame | crates/phash/src/lib.rs:61-214 | For every video block i spells the hash of the i-mod-c-th of the c target frames that convert; there is no hash exactly when none does |
| FrameSampling.ShownAreTheConvertingTargets | crates/phash/src/lib.rs:155-209 | The frames extracted are exactly the decoded target frames that convert, in ascending order |
| FrameHash.ConvertingVideoShows | crates/phash/src/lib.rs:61-214 | When all decoded frames convert, c is the number of targets among them, and block i shows target i mod c, or frame i mod c of a video of fewer than ten frames |
| FrameHash.EveryTargetIsShown | crates/phash/src/lib.rs:61-214 | When all reported frames decode, c is ten, or the number of frames of a shorter video |
| ManifestLog.ManifestFile.AppendJsonl | crates/backfill-thumbnails/src/main.rs:622-642 | A successful append adds exactly the entry's text and a newline; a fault leaves exactly the bytes written until then |
| ManifestLog.ParseManifestEntries | crates/backfill-thumbnails/src/main.rs:747-770 | The loop computes the reading that the following lemmas are about, on every byte sequence |
| ManifestLog.SplitIsExact | crates/backfill-thumbnails/src/main.rs:749 | Splitting at newlines loses nothing and leaves no newline in a line |
| ManifestLog.FailureNamesTheFirstBadLine | crates/backfill-thumbnails/src/main.rs:752-767 | Reading fails exactly when a line that is not empty, and is not the unfinished last one, does not parse, and names the first, counted from one |
| ManifestLog.ReadsEveryLine | crates/backfill-thumbnails/src/main.rs:752-767 | What is read is the entry of every line that parses, in order |
| ManifestLog.WholeLogReads | crates/backfill-thumbnails/src/main.rs:622-770 | What was appended reads back |
| ManifestLog.EveryCutReads | crates/backfill-thumbnails/src/main.rs:747-770 | Every byte prefix of a log can be read, and gives exactly the entries whose text is complete in it |
| ManifestLog.AppendAfterATear | crates/backfill-thumbnails/src/main.rs:622-770 | An entry appended behind a torn line is glued to it: the log reads on only if the glued line parses, else fails at that line |
| ManifestLog.AppendToCutLogReadsIff | crates/backfill-thumbnails/src/main.rs:622-770 | After any cut, appending one entry leaves a readable log if and only if the file was empty or ended with a newline |
| ManifestLog.LostNewlineLosesTheLog | crates/backfill-thumbnails/src/main.rs:622-770 | A crash that lost only a newline reads as if nothing had happened, and one append later not at all |
| ManifestCodec.ACodec | crates/backfill-thumbnails/src/main.rs:635-636 | A serializer as the log needs it exists |
| ManifestCodec.OneAppendTooMany | crates/backfill-thumbnails/src/main.rs:622-770 | A concrete file that reads, and fails to after one append |
| BackfillPlan.BuildRunPlan | crates/backfill-thumbnails/src/lib.rs:314-365 | The loop computes the plan that the following lemmas are about |
| BackfillPlan.StagedKeysAreDistinct | crates/backfill-thumbnails/src/lib.rs:367-370 | Different videos have different staged keys |
| BackfillPlan.PlannedIff | crates/backfill-thumbnails/src/lib.rs:314-427 | A listed .mp4 under the prefix, modified at the cutoff or before, is processed exactly when neither the bucket nor a completed manifest entry of this backend and bucket has its stem plus -thumbnail.png, skipped as there exactly when the bucket has it, and skipped as done exactly when only the manifest has it; nothing else is planned |
| BackfillPlan.PlannedInOrder | crates/backfill-thumbnails/src/lib.rs:325-362 | The plan of a listing is that of its first part followed by that of the rest |
| BackfillPlan.PlannedAtMostOnce | crates/backfill-thumbnails/src/lib.rs:325-362 | One video gives at most one action, for its own key |
| BackfillPlan.CrashRepeatsAtMostOneThumbnail | crates/backfill-thumbnails/src/main.rs:181-191 | If the crash cut the last append anywhere, the manifest can be read, and the next plan differs at most in repeating that one thumbnail; if no key is listed twice, at most one action differs |

Members without a row are helpers of the members that have one.

## Left out

- Database.Connection.Commit: a commit whose answer is lost, so that the client cannot tell whether it happened, counts as failed.
- MediaImports.ImportInner: other writers of the master table during an import are not modelled, and the live progress updates of the run row, which never stop it, are left out.
- MediaPHash.RunInner: other writers of hashes during a drain are not modelled, so two overlapping drains are not compared; a row's download and hashing are one answer of the store, and failures to make a temporary file are left out.
- PHashSpec.BackoffIsExponential: in whole minutes; the range of the interval is a matter of `PHashSpec.RefusedAfter34`.
- FrameSampling.FloatingPointTargets: nothing is said of videos that report more than 2^46 frames.
- FrameSampling.CopyRgb24FrameData: the memory the copy reserves is not modelled, only the bytes it holds.
- SweepLease.Worker.RunOnePass: the worker's clock and the database's are one clock, and the release of the lease at shutdown is not part of the pass.
- ManifestLog.EveryCutReads: the JSON serializer is abstract; assumed are a newline-free non-empty text, reading back what was written, and no readable proper prefix, and for appends that a text glued to a part of another does not read. `ManifestCodec` has a simpler serializer with these properties.
- ChainSnapshot.CompleteWalkSeesAllIff: sources that hand out the cursor of some other post than their last are not in the family.
- ChainSnapshot.RunChainSnapshot: when marking or rebuilding fails after a complete walk, the tables may be half finished, as in the code.
- Video ids are their rank in the database's collation, and texts are character sequences; `len()` counts characters, which for hashes are ASCII.
- `created_at`, `updated_at`, `computed_at` columns and the JSON payloads of feed events, apart from the hash value.
- NaN in `fps`, for which SQL and Rust compare differently.
- The bucket name of Storj videos is the default of its environment variable.
- Feed events of visibility do not rebuild the master table: ingestion adds master rows without one (`src/jobs/ingest.rs:101-104`), so replay is claimed for hashes only.
- `jobs::mirror`, cleanup and `reset_failed_to_retry`: a failing mirror row stays eligible, so that loop need not end, and a reset breaks the link between status and hash.
- `clear_phash_failures` (`src/media_index/chain_repo.rs:293-309`), which deletes drain failures and so ends their backoff early; a drain after it starts from such a table.
- `chain_audit` and the other read-only reports, which are single queries.
- `videogen/request_store.rs`, whose claims are each settled by one status guard.
- Retry counts as 32-bit integers in `mirror_jobs`.
- HTTP handlers, configuration, logging, object storage, ffmpeg, image hashing and the message queue.
