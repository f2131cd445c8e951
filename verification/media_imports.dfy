/** The import loop: an optimistic transaction per page, and one per row when that fails. */
module MediaImports {
  import opened Wrappers
  import opened SortedIds
  import opened MediaTables
  import opened Database
  import opened ImportSpec

  datatype ImportError =
    | InvalidLimit(limit: int)
    | Postgres(error: SqlError)
    | TooManyConsecutiveFailures(consecutive: nat, lastError: string)

  datatype ImportSummary = ImportSummary(scanned: nat, counts: RowCounts)

  /** The circuit breaker has not been reached by any part of the trace. */
  ghost predicate NeverTripped(trace: seq<Step>) {
    forall k :: 0 <= k <= |trace| ==> TrailingFailures(trace[..k]) < MAX_CONSECUTIVE_IMPORT_FAILURES
  }

  /** The breaker was reached by the last row, and only by it. */
  ghost predicate JustTripped(trace: seq<Step>) {
    && trace != []
    && TrailingFailures(trace) == MAX_CONSECUTIVE_IMPORT_FAILURES
    && NeverTripped(trace[..|trace| - 1])
  }

  lemma NeverTrippedExtends(trace: seq<Step>, step: Step)
    requires NeverTripped(trace)
    ensures TrailingFailures(trace + [step]) < MAX_CONSECUTIVE_IMPORT_FAILURES ==> NeverTripped(trace + [step])
    ensures TrailingFailures(trace + [step]) == MAX_CONSECUTIVE_IMPORT_FAILURES ==> JustTripped(trace + [step])
  {
    var longer := trace + [step];
    assert longer[..|trace|] == trace && longer[..|longer|] == longer;
    forall k | 0 <= k <= |trace| ensures longer[..k] == trace[..k] {}
  }

  method RecordRowFailure(conn: Connection, id: VideoId, phase: string, message: string)
    returns (error: Option<SqlError>)
    requires conn.Valid()
    modifies conn`view, conn`faults
    ensures conn.faults == old(conn.faults) + if error.None? then 0 else 1
    ensures conn.Valid()
    ensures error.None? ==> conn.view == RecordFailure(old(conn.view), id, phase, message)
    ensures conn.view.feed == old(conn.view.feed)
  {
    error := conn.WriteFailure(FailureKey(JOB_KIND, id, phase), FailureAfter(conn.view, id, phase, message));
  }

  method ImportMediaRow(conn: Connection, id: VideoId, row: LegacyRow, storage: StorageRef)
    returns (r: Result<bool, SqlError>)
    requires conn.Valid() && conn.Ready()
    modifies conn`view, conn`viewCursors, conn`nextCursor, conn`session, conn`faults
    ensures conn.faults == old(conn.faults) + if r.Ok? then 0 else 1
    ensures conn.Valid() && conn.session.inTx && (r.Ok? ==> conn.Ready())
    ensures r.Ok? ==>
              && conn.view == ImportMedia(old(conn.view), id, row, storage)
              && r.value == (MediaOutcome(old(conn.view), id, LegacyMedia(id, storage)) != Unchanged)
  {
    var input := LegacyMedia(id, storage);
    var media := conn.UpsertServableVideo(id, input);
    if media.Err? { return Err(media.error); }
    var stamped := conn.SetSourcePayload(SourceKey(id, SOURCE_KIND, OfVideo(id)), row);
    if stamped.Some? { return Err(stamped.value); }
    if media.value.media == Unchanged { return Ok(false); }
    var appended := conn.AppendFeedEvent(MediaVisibilityChanged(id, input));
    if appended.Err? { return Err(appended.error); }
    r := Ok(true);
  }

  method ImportHashRow(conn: Connection, id: VideoId, row: LegacyRow) returns (r: Result<bool, SqlError>)
    requires conn.Valid() && conn.Ready() && HasLegacyHash(row)
    modifies conn`view, conn`viewCursors, conn`nextCursor, conn`session, conn`faults
    ensures conn.faults == old(conn.faults) + if r.Ok? then 0 else 1
    ensures conn.Valid() && conn.session.inTx && (r.Ok? ==> conn.Ready())
    ensures r.Ok? ==>
              && conn.view == ImportHash(old(conn.view), id, row)
              && r.value == (HashOutcome(old(conn.view), LegacyHashKey(id, row), LegacyHashRecord(row)) != Unchanged)
  {
    var key, record := LegacyHashKey(id, row), LegacyHashRecord(row);
    var hashed := conn.UpsertHashRecord(key, record);
    if hashed.Err? { return Err(hashed.error); }
    if hashed.value == Unchanged {
      assert conn.view.hashes == old(conn.view.hashes);
      return Ok(false);
    }
    var appended := conn.AppendFeedEvent(HashUpserted(key, record.value));
    if appended.Err? { return Err(appended.error); }
    r := Ok(true);
  }

  /** Keyless rows are recorded, not refused; an Err is a real SQL error. */
  method ImportOneRow(conn: Connection, id: VideoId, row: LegacyRow) returns (r: Result<RowCounts, SqlError>)
    requires conn.Valid() && conn.Ready()
    modifies conn`view, conn`viewCursors, conn`nextCursor, conn`session, conn`faults
    ensures conn.faults == old(conn.faults) + if r.Ok? then 0 else 1
    ensures conn.Valid() && conn.session.inTx && (r.Ok? ==> conn.Ready())
    ensures r.Ok? ==> conn.view == ImportRow(old(conn.view), id, row)
    ensures r.Ok? ==> r.value == ImportCounts(old(conn.view), id, row)
  {
    hide Connection.Valid, Connection.Protocol, P.Takes, ImportMedia, ImportHash, RecordFailure, MediaOutcome,
      HashOutcome, LegacyMedia, LegacyHashRecord, LegacyHashKey, CanonicalStorage;
    var counts := NOTHING;
    var storage := CanonicalStorage(row);
    if storage.None? {
      var failed := RecordRowFailure(conn, id, "storage_selection", NO_KEY);
      if failed.Some? { return Err(failed.value); }
      return Ok(counts.(failures := 1));
    }
    var media := ImportMediaRow(conn, id, row, storage.value);
    if media.Err? { return Err(media.error); }
    if media.value { counts := counts.(importedMedia := 1); }

    if HasLegacyHash(row) {
      var hashed := ImportHashRow(conn, id, row);
      if hashed.Err? { return Err(hashed.error); }
      if hashed.value { counts := counts.(hashRows := 1, hashEvents := 1); }
    }
    r := Ok(counts);
  }

  /** The page query: the next missing rows after the cursor, in id order; the database refuses a negative LIMIT. */
  method FetchMissing(conn: Connection, legacy: map<VideoId, LegacyRow>, after: Option<VideoId>, limit: int)
    returns (r: Result<seq<VideoId>, SqlError>)
    requires conn.Valid()
    modifies conn`faults
    ensures conn.Valid() && conn.faults == old(conn.faults) + if r.Ok? || limit < 0 then 0 else 1
    ensures r.Ok? ==> limit >= 0 && IsPage(r.value, MissingAfter(legacy, conn.committed, after), limit)
    ensures r.Ok? && limit > 0 && r.value == [] ==>
              forall id :: id in legacy && After(after, id) ==> id in conn.committed.master
  {
    if limit < 0 { return Err("LIMIT must not be negative"); }
    var error := conn.Execute();
    if error.Some? { return Err(error.value); }
    var rows := FirstRows(Sorted(MissingAfter(legacy, conn.committed, after)), limit);
    FirstRowsAreThePage(rows, MissingAfter(legacy, conn.committed, after), limit);
    NothingMissing(legacy, conn.committed, after);
    r := Ok(rows);
  }

  lemma NothingMissing(legacy: map<VideoId, LegacyRow>, t: Tables, after: Option<VideoId>)
    ensures MissingAfter(legacy, t, after) == {} <==> forall id :: id in legacy && After(after, id) ==> id in t.master
  {
    if MissingAfter(legacy, t, after) == {} {
      forall id | id in legacy && After(after, id) ensures id in t.master {
        assert id !in MissingAfter(legacy, t, after);
      }
    }
  }

  ghost predicate AllIn(legacy: map<VideoId, LegacyRow>, page: seq<VideoId>) {
    forall k :: 0 <= k < |page| ==> page[k] in legacy
  }

  /** The trace grown by a committed step for each row of a page. */
  ghost function Committing(legacy: map<VideoId, LegacyRow>, trace: seq<Step>, page: seq<VideoId>): (r: seq<Step>)
    requires AllIn(legacy, page)
    ensures |r| == |trace| + |page|
    ensures r[..|trace|] == trace
    ensures forall k :: |trace| <= k < |r| ==> r[k] == Step(page[k - |trace|], legacy[page[k - |trace|]], Committed)
  {
    trace + seq(|page|, i requires 0 <= i < |page| => Step(page[i], legacy[page[i]], Committed))
  }

  lemma CommittingOneMore(legacy: map<VideoId, LegacyRow>, t: Tables, trace: seq<Step>, page: seq<VideoId>, i: nat)
    requires AllIn(legacy, page)
    requires i < |page|
    ensures var before, now := Committing(legacy, trace, page[..i]), Committing(legacy, trace, page[..i + 1]);
            && Run(t, now) == ImportRow(Run(t, before), page[i], legacy[page[i]])
            && Tally(t, now) == Tally(t, before).Add(ImportCounts(Run(t, before), page[i], legacy[page[i]]))
  {
    var before, now := Committing(legacy, trace, page[..i]), Committing(legacy, trace, page[..i + 1]);
    var step := Step(page[i], legacy[page[i]], Committed);
    RunExtends(t, before, step);
    assert now == before + [step];
  }

  lemma AddAssociates(a: RowCounts, b: RowCounts, c: RowCounts)
    ensures a.Add(b).Add(c) == a.Add(b.Add(c))
  {}

  /** The whole page in one transaction, which the caller commits or rolls back. */
  method ImportPage(conn: Connection, legacy: map<VideoId, LegacyRow>, page: seq<VideoId>, ghost t: Tables,
                    ghost trace: seq<Step>)
    returns (r: Option<RowCounts>)
    requires conn.Valid() && conn.Ready() && conn.view == Run(t, trace)
    requires AllIn(legacy, page)
    modifies conn`view, conn`viewCursors, conn`nextCursor, conn`session, conn`faults
    ensures conn.faults == old(conn.faults) + if r.Some? then 0 else 1
    ensures conn.Valid() && conn.session.inTx && (r.Some? ==> conn.Ready())
    ensures r.Some? ==>
              && conn.view == Run(t, Committing(legacy, trace, page))
              && Tally(t, Committing(legacy, trace, page)) == Tally(t, trace).Add(r.value)
  {
    hide Connection.Valid, Connection.Protocol, P.Takes, ImportRow, ImportCounts, Run, Tally;
    var counts := NOTHING;
    var i := 0;
    assert Committing(legacy, trace, page[..0]) == trace;
    while i < |page|
      invariant 0 <= i <= |page|
      invariant conn.Valid() && conn.Ready() && conn.faults == old(conn.faults)
      invariant conn.view == Run(t, Committing(legacy, trace, page[..i]))
      invariant Tally(t, Committing(legacy, trace, page[..i])) == Tally(t, trace).Add(counts)
    {
      CommittingOneMore(legacy, t, trace, page, i);
      var row := ImportOneRow(conn, page[i], legacy[page[i]]);
      if row.Err? { return None; }
      AddAssociates(Tally(t, trace), counts, row.value);
      counts := counts.Add(row.value);
      i := i + 1;
    }
    assert page[..i] == page;
    r := Some(counts);
  }

  /** `now` is `trace` grown by a step for each of the first n rows of a page. */
  ghost predicate Visits(legacy: map<VideoId, LegacyRow>, trace: seq<Step>, page: seq<VideoId>, n: nat, now: seq<Step>)
    requires AllIn(legacy, page)
  {
    && n <= |page| && |now| == |trace| + n && now[..|trace|] == trace
    && forall k :: |trace| <= k < |now| ==> now[k].id == page[k - |trace|] && now[k].row == legacy[page[k - |trace|]]
  }

  /** No row from here on hit a SQL error. */
  ghost predicate CommittedFrom(trace: seq<Step>, from: nat) {
    forall k :: from <= k < |trace| ==> trace[k].fate.Committed?
  }

  /** What the loop keeps between two durable writes. */
  ghost predicate InStep(conn: Connection, t: Tables, trace: seq<Step>, counts: RowCounts, consecutive: nat)
    reads conn`committed, conn`committedCursors, conn`view, conn`viewCursors, conn`nextCursor, conn`session
  {
    && conn.Valid()
    && conn.committed == Run(t, trace)
    && counts == Tally(t, trace)
    && consecutive == TrailingFailures(trace)
    && NeverTripped(trace)
  }

  /** The failure row of a row that hit a SQL error. */
  method RecordInOwnTransaction(conn: Connection, id: VideoId, message: string) returns (error: Option<SqlError>)
    requires conn.Valid()
    modifies conn`committed, conn`committedCursors, conn`view, conn`viewCursors, conn`session, conn`faults
    ensures conn.faults == old(conn.faults) + if error.None? then 0 else 1
    ensures conn.Valid()
    ensures conn.committed == if error.None? then RecordFailure(old(conn.committed), id, "import_error", message)
                              else old(conn.committed)
  {
    hide Connection.Valid, Connection.Protocol, P.Takes, RecordFailure;
    error := conn.Begin();
    if error.Some? { return; }
    error := RecordRowFailure(conn, id, "import_error", message);
    if error.Some? { return; }
    error := conn.Commit();
  }

  /** One row in its own transaction; on a SQL error, the failure row in another. */
  method ImportRowAlone(conn: Connection, legacy: map<VideoId, LegacyRow>, id: VideoId, counts: RowCounts,
                        consecutive: nat,
                        ghost t: Tables, ghost trace: seq<Step>)
    returns (r: Result<(RowCounts, nat), ImportError>, ghost now: seq<Step>)
    requires InStep(conn, t, trace, counts, consecutive) && id in legacy
    modifies conn`committed, conn`committedCursors, conn`view, conn`viewCursors
    modifies conn`nextCursor, conn`session, conn`faults
    ensures old(conn.faults) <= conn.faults
    ensures r.Err? ==> old(conn.faults) < conn.faults
    ensures conn.Valid() && conn.committed == Run(t, now)
    ensures now == trace || exists fate :: now == trace + [Step(id, legacy[id], fate)]
    ensures r.Ok? ==> |now| == |trace| + 1 && InStep(conn, t, now, r.value.0, r.value.1)
    ensures r.Err? ==> !r.error.InvalidLimit?
    ensures r.Err? && r.error.TooManyConsecutiveFailures? ==>
              JustTripped(now) && r.error.consecutive == TrailingFailures(now)
    ensures r.Err? && r.error.Postgres? ==> now == trace
    ensures r.Ok? ==> conn.faults == old(conn.faults) + if now[|trace|].fate.Committed? then 0 else 1
  {
    hide Connection.Valid, Connection.Protocol, P.Takes, ImportRow, ImportCounts, RecordFailure, Run, Tally,
        TrailingFailures;
    now := trace;
    var begun := conn.Begin();
    if begun.Some? { return Err(Postgres(begun.value)), now; }
    var row := ImportOneRow(conn, id, legacy[id]);
    match row {
      case Ok(delta) =>
        var done := conn.Commit();
        if done.Some? { return Err(Postgres(done.value)), now; }
        ghost var step := Step(id, legacy[id], Committed);
        RunExtends(t, trace, step);
        NeverTrippedExtends(trace, step);
        now := trace + [step];
        r := Ok((counts.Add(delta), 0));
      case Err(message) =>
        conn.Rollback();
        var recorded := RecordInOwnTransaction(conn, id, message);
        if recorded.Some? { return Err(Postgres(recorded.value)), now; }
        ghost var step := Step(id, legacy[id], SqlFailure(message));
        RunExtends(t, trace, step);
        NeverTrippedExtends(trace, step);
        now := trace + [step];
        if consecutive + 1 >= MAX_CONSECUTIVE_IMPORT_FAILURES {
          assert TrailingFailures(trace) < MAX_CONSECUTIVE_IMPORT_FAILURES by { assert trace[..|trace|] == trace; }
          return Err(TooManyConsecutiveFailures(consecutive + 1, message)), now;
        }
        r := Ok((counts.Add(RowCounts(0, 0, 0, 1)), consecutive + 1));
    }
  }

  /** The fallback: the page again, row by row. */
  method ImportRowByRow(conn: Connection, legacy: map<VideoId, LegacyRow>, page: seq<VideoId>, counts0: RowCounts,
                        consecutive0: nat,
                        ghost t: Tables, ghost trace: seq<Step>)
    returns (r: Result<(RowCounts, nat), ImportError>, ghost now: seq<Step>, ghost n: nat)
    requires InStep(conn, t, trace, counts0, consecutive0) && AllIn(legacy, page)
    modifies conn`committed, conn`committedCursors, conn`view, conn`viewCursors
    modifies conn`nextCursor, conn`session, conn`faults
    ensures old(conn.faults) <= conn.faults
    ensures conn.Valid() && conn.committed == Run(t, now)
    ensures Visits(legacy, trace, page, n, now)
    ensures r.Ok? ==> n == |page| && InStep(conn, t, now, r.value.0, r.value.1)
    ensures r.Err? ==> !r.error.InvalidLimit?
    ensures r.Err? && r.error.TooManyConsecutiveFailures? ==>
              JustTripped(now) && r.error.consecutive == TrailingFailures(now)
    ensures r.Err? && r.error.Postgres? ==> NeverTripped(now)
    ensures conn.faults == old(conn.faults) ==> r.Ok? && CommittedFrom(now, |trace|)
  {
    hide Connection.Valid, Connection.Protocol, P.Takes, ImportRow, ImportCounts, RecordFailure, Run, Tally,
        TrailingFailures;
    var counts, consecutive := counts0, consecutive0;
    now, n := trace, 0;
    var i := 0;
    while i < |page|
      invariant 0 <= i <= |page| && n == i && old(conn.faults) <= conn.faults
      invariant conn.faults == old(conn.faults) ==> CommittedFrom(now, |trace|)
      invariant InStep(conn, t, now, counts, consecutive)
      invariant Visits(legacy, trace, page, n, now)
    {
      ghost var before := now;
      var row;
      row, now := ImportRowAlone(conn, legacy, page[i], counts, consecutive, t, before);
      n := |now| - |trace|;
      if row.Err? { return Err(row.error), now, n; }
      counts, consecutive := row.value.0, row.value.1;
      i := i + 1;
    }
    r := Ok((counts, consecutive));
  }

  /** A page: all at once if that works, else row by row. */
  method ImportOnePage(conn: Connection, legacy: map<VideoId, LegacyRow>, page: seq<VideoId>, counts: RowCounts,
                       consecutive: nat,
                       ghost t: Tables, ghost trace: seq<Step>)
    returns (r: Result<(RowCounts, nat), ImportError>, ghost now: seq<Step>, ghost n: nat)
    requires InStep(conn, t, trace, counts, consecutive) && AllIn(legacy, page) && page != []
    modifies conn`committed, conn`committedCursors, conn`view, conn`viewCursors
    modifies conn`nextCursor, conn`session, conn`faults
    ensures old(conn.faults) <= conn.faults
    ensures conn.Valid() && conn.committed == Run(t, now)
    ensures Visits(legacy, trace, page, n, now)
    ensures r.Ok? ==> n == |page| && InStep(conn, t, now, r.value.0, r.value.1)
    ensures r.Err? ==> !r.error.InvalidLimit?
    ensures r.Err? && r.error.TooManyConsecutiveFailures? ==>
              JustTripped(now) && r.error.consecutive == TrailingFailures(now)
    ensures r.Err? && r.error.Postgres? ==> NeverTripped(now)
    ensures conn.faults == old(conn.faults) ==> r.Ok? && CommittedFrom(now, |trace|)
  {
    hide Connection.Valid, Connection.Protocol, P.Takes, ImportRow, ImportCounts, RecordFailure, Run, Tally,
        TrailingFailures;
    var begun := conn.Begin();
    if begun.Some? { return Err(Postgres(begun.value)), trace, 0; }
    var batch := ImportPage(conn, legacy, page, t, trace);
    if batch.Some? {
      var done := conn.Commit();
      if done.Some? { return Err(Postgres(done.value)), trace, 0; }
      CommittedPage(legacy, trace, page);
      return Ok((counts.Add(batch.value), 0)), Committing(legacy, trace, page), |page|;
    }
    conn.Rollback();
    r, now, n := ImportRowByRow(conn, legacy, page, counts, consecutive, t, trace);
  }

  /**
   The import of `legacy` into the committed tables.

   Whatever its pages, rollbacks and retries, the tables it leaves are those of
   `trace`: a run of one-row transactions over the rows that were missing at the
   start, in id order.
   */
  method ImportInner(conn: Connection, legacy: map<VideoId, LegacyRow>, limit: Option<nat>, batchSize: int,
                     cancel: nat -> bool)
    returns (r: Result<ImportSummary, ImportError>, ghost trace: seq<Step>, polls: nat)
    requires conn.Valid()
    modifies conn
    ensures conn.Valid()
    ensures conn.committed == Run(old(conn.committed), trace)
    ensures Scans(legacy, old(conn.committed), trace)
    ensures limit.Some? ==> |trace| <= limit.value
    ensures r.Ok? ==> r.value == ImportSummary(|trace|, Tally(old(conn.committed), trace))
    ensures r.Ok? && conn.jobStatus != Cancelled && batchSize > 0 ==>
              |trace| == |Missing(legacy, old(conn.committed))| || limit == Some(|trace|)
    ensures r.Ok? ==> NeverTripped(trace)
    ensures r.Ok? ==> conn.jobStatus in {Succeeded, SucceededWithFailures, Cancelled}
    ensures r.Ok? && conn.jobStatus != Cancelled ==> (conn.jobStatus == Succeeded <==> r.value.counts.failures == 0)
    ensures r.Err? ==> !r.error.InvalidLimit?
    ensures r.Err? && r.error.TooManyConsecutiveFailures? ==>
              JustTripped(trace) && r.error.consecutive == TrailingFailures(trace)
    ensures r.Err? && r.error.Postgres? ==> NeverTripped(trace)
    ensures old(conn.faults) <= conn.faults
    ensures conn.faults == old(conn.faults) && batchSize >= 0 ==> r.Ok? && CommittedFrom(trace, 0)
    ensures forall i :: 0 <= i < polls && cancel(i) ==> i == polls - 1
    ensures r.Ok? ==> polls > 0 && (conn.jobStatus == Cancelled <==> cancel(polls - 1))
  {
    hide Connection.Valid, Connection.Protocol, P.Takes, ImportRow, ImportCounts, RecordFailure, Run, Tally,
      TrailingFailures, Sorted, NeverTripped, JustTripped, MissingAfter, Visits, IsPage, FirstRows, AllIn,
      CommittedFrom;
    ghost var t := conn.committed;
    ghost var missing := Missing(legacy, t);
    trace, polls := [], 0;
    assert CommittedFrom(trace, 0) by { NothingYet(); }
    var counts, consecutive, scanned: nat := NOTHING, 0, 0;
    var after: Option<VideoId> := None;
    var cancelled := false;
    EmptyTrace(t);

    while true
      invariant InStep(conn, t, trace, counts, consecutive)
      invariant Scans(legacy, t, trace) && |trace| == scanned
      invariant after == LastId(trace)
      invariant limit.Some? ==> scanned <= limit.value
      invariant !cancelled && forall i :: 0 <= i < polls ==> !cancel(i)
      invariant old(conn.faults) <= conn.faults
      invariant conn.faults == old(conn.faults) ==> CommittedFrom(trace, 0)
      decreases |missing| - |trace|
    {
      polls := polls + 1;
      if cancel(polls - 1) {
        cancelled := true;
        break;
      }
      if limit == Some(scanned) { break; }
      var pageLimit := match limit case Some(l) => Least(l - scanned, batchSize) case None => batchSize;
      var fetched := FetchMissing(conn, legacy, after, pageLimit);
      if fetched.Err? { return Err(Postgres(fetched.error)), trace, polls; }
      var page := fetched.value;
      FirstRowsAreThePage(page, MissingAfter(legacy, conn.committed, after), pageLimit);
      RestOfScan(legacy, t, trace);
      PageIsStretch(legacy, t, trace, page, pageLimit);
      if page == [] { break; }
      after := Some(page[|page| - 1]);
      ghost var before := trace;

      ghost var n;
      var rows;
      rows, trace, n := ImportOnePage(conn, legacy, page, counts, consecutive, t, before);
      VisitsKeepScan(legacy, t, before, page, n, trace);
      if conn.faults == old(conn.faults) {
        VisitsExtend(legacy, before, page, n, trace);
        CommittedThrough(before, trace);
      }
      if rows.Err? { return Err(rows.error), trace, polls; }
      counts, consecutive := rows.value.0, rows.value.1;
      scanned := scanned + |page|;
    }

    var status := if cancelled then Cancelled else if counts.failures == 0 then Succeeded else SucceededWithFailures;
    var completed := conn.SetJobStatus(status);
    if completed.Some? { return Err(Postgres(completed.value)), trace, polls; }
    r := Ok(ImportSummary(scanned, counts));
  }

  /** The whole job: a bad limit changes no table, and every error is reported however the status update fares. */
  method ImportCurrentVideoIndex(conn: Connection, legacy: map<VideoId, LegacyRow>, limit: Option<int>, batchSize: int,
                                 cancel: nat -> bool)
    returns (r: Result<ImportSummary, ImportError>, ghost trace: seq<Step>, polls: nat)
    requires conn.Valid()
    modifies conn
    ensures conn.Valid()
    ensures conn.committed == Run(old(conn.committed), trace)
    ensures Scans(legacy, old(conn.committed), trace)
    ensures r.Err? && r.error.InvalidLimit? ==> limit.Some? && limit.value == r.error.limit < 0 && trace == []
    ensures r.Ok? ==> r.value == ImportSummary(|trace|, Tally(old(conn.committed), trace)) && NeverTripped(trace)
    ensures r.Ok? && conn.jobStatus != Cancelled && batchSize > 0 ==>
              |trace| == |Missing(legacy, old(conn.committed))| || limit == Some(|trace|)
    ensures r.Err? && r.error.TooManyConsecutiveFailures? <==> JustTripped(trace)
    ensures limit.Some? && limit.value < 0 ==> r.Err? && trace == []
    ensures old(conn.faults) <= conn.faults
    ensures conn.faults == old(conn.faults) && batchSize >= 0 && (limit.Some? ==> limit.value >= 0) ==>
              r.Ok? && CommittedFrom(trace, 0)
    ensures forall i :: 0 <= i < polls && cancel(i) ==> i == polls - 1
    ensures r.Ok? ==> polls > 0 && (conn.jobStatus == Cancelled <==> cancel(polls - 1))
  {
    hide Connection.Valid, Connection.Protocol, P.Takes, ImportRow, ImportCounts, RecordFailure, Run, Tally,
        TrailingFailures;
    trace, polls := [], 0;
    EmptyTrace(conn.committed);
    var inserted := conn.SetJobStatus(Running);
    if inserted.Some? { return Err(Postgres(inserted.value)), trace, polls; }
    if limit.Some? && limit.value < 0 {
      var marked := conn.SetJobStatus(Failed);
      return Err(InvalidLimit(limit.value)), trace, polls;
    }
    r, trace, polls :=
      ImportInner(conn, legacy, if limit.Some? then Some(limit.value as nat) else None, batchSize, cancel);
    NotBoth(trace);
    if r.Err? {
      var marked := conn.SetJobStatus(Failed);
    }
  }

  lemma PageIsStretch(legacy: map<VideoId, LegacyRow>, t: Tables, trace: seq<Step>, page: seq<VideoId>, limit: nat)
    requires Scans(legacy, t, trace) && page == FirstRows(Sorted(Missing(legacy, t))[|trace|..], limit)
    ensures |trace| + |page| <= |Missing(legacy, t)| && |page| <= limit && AllIn(legacy, page)
    ensures page == Sorted(Missing(legacy, t))[|trace|..|trace| + |page|]
    ensures page == [] <==> limit == 0 || |trace| == |Missing(legacy, t)|
  {
    hide Sorted;
    forall k | 0 <= k < |page| ensures page[k] in legacy { SortedMember(Missing(legacy, t), |trace| + k); }
  }

  lemma VisitsExtend(legacy: map<VideoId, LegacyRow>, trace: seq<Step>, page: seq<VideoId>, n: nat, now: seq<Step>)
    requires AllIn(legacy, page) && Visits(legacy, trace, page, n, now)
    ensures trace <= now
  {}

  lemma NothingYet()
    ensures CommittedFrom([], 0)
  {}

  lemma CommittedThrough(trace: seq<Step>, now: seq<Step>)
    requires CommittedFrom(trace, 0) && CommittedFrom(now, |trace|) && trace <= now
    ensures CommittedFrom(now, 0)
  {}

  lemma NotBoth(trace: seq<Step>)
    ensures !(NeverTripped(trace) && JustTripped(trace))
  {
    assert trace[..|trace|] == trace;
  }

  lemma EmptyTrace(t: Tables)
    ensures Run(t, []) == t && Tally(t, []) == NOTHING && TrailingFailures([]) == 0 && NeverTripped([])
  {}

  /** A committed page resets the count of consecutive failures, and cannot trip the breaker. */
  lemma {:induction false} CommittedPage(legacy: map<VideoId, LegacyRow>, trace: seq<Step>, page: seq<VideoId>)
    requires AllIn(legacy, page) && page != [] && NeverTripped(trace)
    ensures TrailingFailures(Committing(legacy, trace, page)) == 0
    ensures NeverTripped(Committing(legacy, trace, page))
    ensures Visits(legacy, trace, page, |page|, Committing(legacy, trace, page))
  {
    var now := Committing(legacy, trace, page);
    forall k | 0 <= k <= |now| ensures TrailingFailures(now[..k]) < MAX_CONSECUTIVE_IMPORT_FAILURES {
      if k <= |trace| {
        assert now[..k] == trace[..k];
      } else {
        assert now[..k][k - 1] == now[k - 1];
      }
    }
  }

  /** Visiting the next rows of the scan, all or some of them, is still a scan. */
  lemma VisitsKeepScan(legacy: map<VideoId, LegacyRow>, t: Tables, trace: seq<Step>, page: seq<VideoId>, n: nat,
                       now: seq<Step>)
    requires Scans(legacy, t, trace)
    requires |trace| + |page| <= |Missing(legacy, t)|
    requires page == Sorted(Missing(legacy, t))[|trace|..|trace| + |page|]
    requires AllIn(legacy, page) && Visits(legacy, trace, page, n, now)
    ensures Scans(legacy, t, now) && |now| == |trace| + n && n <= |page|
    ensures n == |page| && page != [] ==> LastId(now) == Some(page[|page| - 1])
  {
    forall k | 0 <= k < |now|
      ensures now[k].id == Sorted(Missing(legacy, t))[k] && now[k].id in legacy && now[k].row == legacy[now[k].id]
    {
      if k < |trace| { assert now[k] == now[..|trace|][k]; }
    }
  }
}
