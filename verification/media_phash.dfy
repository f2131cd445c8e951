/** One drain run: pages of missing rows, hashed concurrently and written as they finish. */
module MediaPHash {
  import opened Wrappers
  import opened Machine
  import opened SortedIds
  import opened MediaTables
  import opened Database
  import opened PHashSpec

  datatype PHashSummary = PHashSummary(scanned: nat, hashesUpserted: nat, eventsAppended: nat, failures: nat)

  function Hashes(trace: seq<Step>): nat {
    if trace == [] then 0 else Hashes(trace[..|trace| - 1]) + if trace[|trace| - 1].outcome.Hashed? then 1 else 0
  }

  lemma {:induction false} HashesCount(trace: seq<Step>)
    ensures Hashes(trace) == |set k: nat | k < |trace| && trace[k].outcome.Hashed?|
  {
    var all := set k: nat | k < |trace| && trace[k].outcome.Hashed?;
    if trace == [] {
      assert all == {};
    } else {
      var n := |trace| - 1;
      HashesCount(trace[..n]);
      var before := set k: nat | k < n && trace[..n][k].outcome.Hashed?;
      assert all == if trace[n].outcome.Hashed? then before + {n} else before;
    }
  }

  ghost predicate Visited(trace: seq<Step>, id: VideoId) {
    exists k :: 0 <= k < |trace| && trace[k].id == id
  }

  /** No row is taken twice, each was in the master table, and each lacked its hash at the start. */
  ghost predicate TakesEachOnce(t: Tables, trace: seq<Step>) {
    && (forall j, k :: 0 <= j < k < |trace| ==> trace[j].id != trace[k].id)
    && (forall k :: 0 <= k < |trace| ==>
          trace[k].id in t.master && trace[k].row == t.master[trace[k].id] && CanonicalKey(trace[k].id) !in t.hashes)
  }

  /** Every outcome is that of its row in the stores as they are. */
  ghost predicate Follows(world: World, trace: seq<Step>) {
    forall k :: 0 <= k < |trace| ==> trace[k].outcome == OutcomeOf(world, trace[k].id, trace[k].row)
  }

  lemma VisitedInPart(trace: seq<Step>, n: nat, id: VideoId)
    requires n <= |trace|
    ensures Visited(trace[..n], id) ==> Visited(trace, id)
  {
    if k :| 0 <= k < n && trace[..n][k].id == id {
      assert trace[k].id == id;
    }
  }

  /** Steps for other videos do not touch a row's place in the selection. */
  lemma {:induction false} UnvisitedRowUnchanged(t: Tables, trace: seq<Step>, id: VideoId)
    requires !Visited(trace, id)
    ensures var now := Run(t, trace);
            && now.master == t.master
            && (CanonicalKey(id) in now.hashes <==> CanonicalKey(id) in t.hashes)
            && forall key: FailureKey :: key.item == id ==>
                 && (key in now.failures <==> key in t.failures)
                 && (key in t.failures ==> now.failures[key] == t.failures[key])
  {
    if trace != [] {
      var n := |trace| - 1;
      VisitedInPart(trace, n, id);
      assert trace[n].id != id;
      UnvisitedRowUnchanged(t, trace[..n], id);
    }
  }

  lemma {:induction false} MasterUnchanged(t: Tables, trace: seq<Step>)
    ensures Run(t, trace).master == t.master
    ensures forall key :: key in t.hashes ==> key in Run(t, trace).hashes
  {
    if trace != [] {
      MasterUnchanged(t, trace[..|trace| - 1]);
    }
  }

  lemma BackoffOnlyExpires(t: Tables, trace: seq<Step>, id: VideoId, start: int, now: int)
    requires !Visited(trace, id) && start <= now
    ensures BackingOff(Run(t, trace), id, now) ==> BackingOff(t, id, start)
  {
    UnvisitedRowUnchanged(t, trace, id);
    var t' := Run(t, trace);
    if BackingOff(t', id, now) {
      var key :| (key in t'.failures && key.item == id
                  && t'.failures[key].nextRetryAt.Some? && now < t'.failures[key].nextRetryAt.value);
      assert key in t.failures && t.failures[key] == t'.failures[key];
    }
  }

  /** A row eligible at the start is still eligible when its page is fetched. */
  lemma {:induction false} StaysEligible(t: Tables, trace: seq<Step>, id: VideoId, start: int, now: int)
    requires !Visited(trace, id) && start <= now && Eligible(t, id, start)
    ensures Eligible(Run(t, trace), id, now)
  {
    UnvisitedRowUnchanged(t, trace, id);
    BackoffOnlyExpires(t, trace, id, start, now);
  }

  /** Download from the store the row names, then hash. */
  method Compute(world: World, id: VideoId, row: MediaRow) returns (outcome: Outcome)
    ensures outcome == OutcomeOf(world, id, row)
  {
    hide MissingKey, DownloadError, TextOf;
    var provider, objectKey := TextOf(row, StorageProvider), TextOf(row, ObjectKey);
    var answer;
    if provider == Some("hetzner") {
      if objectKey.None? { return FailedIn("phash_download", MissingKey(HetznerStore)); }
      answer := world(id, HetznerStore, objectKey.value);
      if answer.NoDownload? {
        return FailedIn("phash_download", DownloadError(HetznerStore, objectKey.value, answer.message));
      }
    } else if provider == Some("storj") || provider == None {
      if objectKey.None? { return FailedIn("phash_download", MissingKey(StorjStore)); }
      answer := world(id, StorjStore, objectKey.value);
      if answer.NoDownload? {
        return FailedIn("phash_download", DownloadError(StorjStore, objectKey.value, answer.message));
      }
    } else {
      return FailedIn("phash_download", "unknown storage provider: " + provider.value);
    }
    if answer.NoDecode? { return FailedIn("phash_decode", answer.message); }
    outcome := Hashed(answer.hash, answer.metadata);
  }

  /** One outcome in one transaction. */
  method PersistOne(conn: Connection, step: Step, summary: PHashSummary)
    returns (r: Result<PHashSummary, SqlError>)
    requires conn.Valid()
    modifies conn`committed, conn`committedCursors, conn`view, conn`viewCursors
    modifies conn`nextCursor, conn`session, conn`faults
    ensures conn.Valid() && old(conn.faults) <= conn.faults
    ensures r.Ok? ==> conn.faults == old(conn.faults) && Recordable(old(conn.committed), step)
    ensures r.Err? ==> conn.faults > old(conn.faults) || !Recordable(old(conn.committed), step)
    ensures conn.committed == if r.Ok? then StepAfter(old(conn.committed), step) else old(conn.committed)
    ensures r.Ok? && step.outcome.FailedIn? ==> r.value == summary.(failures := summary.failures + 1)
    ensures r.Ok? && step.outcome.Hashed? ==>
              var record := PHashRecord(step.row, step.outcome.hash, step.outcome.metadata);
              r.value == if HashOutcome(old(conn.committed), CanonicalKey(step.id), record) == Unchanged then summary
                         else summary.(hashesUpserted := summary.hashesUpserted + 1,
                             eventsAppended := summary.eventsAppended + 1)
  {
    hide Connection.Valid, Connection.Protocol, P.Takes, FitsInterval;
    var updated := summary;
    var error := conn.Begin();
    if error.Some? { return Err(error.value); }
    match step.outcome {
      case Hashed(hash, metadata) =>
        var key, record := CanonicalKey(step.id), PHashRecord(step.row, hash, metadata);
        var outcome := conn.UpsertHashRecord(key, record);
        if outcome.Err? { return Err(outcome.error); }
        if outcome.value != Unchanged {
          var appended := conn.AppendFeedEvent(HashUpserted(key, record.value));
          if appended.Err? { return Err(appended.error); }
          updated := summary.(hashesUpserted := summary.hashesUpserted + 1,
              eventsAppended := summary.eventsAppended + 1);
        } else {
          assert conn.view.hashes == old(conn.committed).hashes;
        }
        error := conn.DeleteFailures(JOB_KIND, step.id);
        if error.Some? { return Err(error.value); }
      case FailedIn(phase, message) =>
        var key := FailureKey(JOB_KIND, step.id, phase);
        if key in conn.view.failures && !FitsInterval(conn.view.failures[key].retryCount) {
          return Err("interval out of range");
        }
        error := conn.WriteFailure(key, PHashSpec.FailureAfter(conn.view, key, message, step.at));
        if error.Some? { return Err(error.value); }
        updated := summary.(failures := summary.failures + 1);
    }
    error := conn.Commit();
    if error.Some? { return Err(error.value); }
    r := Ok(updated);
  }

  /** A fetched row's hash is new, so every success is counted and announced. */
  lemma {:induction false} SuccessIsNew(t: Tables, trace: seq<Step>, step: Step)
    requires TakesEachOnce(t, trace) && !Visited(trace, step.id)
    requires CanonicalKey(step.id) !in t.hashes
    ensures step.outcome.Hashed? ==>
              var record := PHashRecord(step.row, step.outcome.hash, step.outcome.metadata);
              HashOutcome(Run(t, trace), CanonicalKey(step.id), record) == Inserted
  {
    UnvisitedRowUnchanged(t, trace, step.id);
  }

  /** A success is stored and announced and has no failure left; a failure is on record and has to wait. */
  ghost predicate Durable(t: Tables, step: Step) {
    match step.outcome
    case Hashed(hash, metadata) =>
      && StoredRecord(t, CanonicalKey(step.id)) == Some(PHashRecord(step.row, hash, metadata))
      && HashUpserted(CanonicalKey(step.id), hash) in t.feed
      && FailuresOf(t, JOB_KIND, step.id) == {}
    case FailedIn(phase, error) =>
      && CanonicalKey(step.id) !in t.hashes
      && FailureKey(JOB_KIND, step.id, phase) in t.failures
      && var failure := t.failures[FailureKey(JOB_KIND, step.id, phase)];
         failure.lastError == error && failure.retryCount > 0
         && failure.nextRetryAt.Some? && step.at + FIRST_BACKOFF <= failure.nextRetryAt.value <= step.at + MAX_BACKOFF
  }

  function StoredRecord(t: Tables, key: HashKey): Option<HashRecord> {
    if key in t.hashes then Some(t.hashes[key]) else None
  }

  lemma BackoffInRange(n: nat)
    ensures FIRST_BACKOFF <= BackoffAfter(n) <= MAX_BACKOFF
  {
    Pow2Grows(0, n);
  }

  lemma {:induction false} StepIsDurable(t: Tables, step: Step)
    requires CanonicalKey(step.id) !in t.hashes
    ensures Durable(StepAfter(t, step), step)
  {
    hide PHashRecord, BackoffAfter;
    match step.outcome
    case Hashed(hash, metadata) =>
      assert PHashRecord(step.row, hash, metadata).value == hash by { RecordShows(step.row, hash, metadata); }
    case FailedIn(phase, error) =>
      var key := FailureKey(JOB_KIND, step.id, phase);
      if key in t.failures { BackoffInRange(t.failures[key].retryCount); }
  }

  lemma OtherStepKeepsDurable(t: Tables, step: Step, other: Step)
    requires Durable(t, step) && other.id != step.id
    ensures Durable(StepAfter(t, other), step)
  {
    hide PHashRecord, BackoffAfter;
  }

  /** At the end of a drain every outcome it committed is still there. */
  lemma {:induction false} OutcomesAreDurable(t: Tables, trace: seq<Step>, k: nat)
    requires TakesEachOnce(t, trace) && k < |trace|
    ensures Durable(Run(t, trace), trace[k])
  {
    hide Durable, StepAfter;
    var n := |trace| - 1;
    var before := trace[..n];
    if k == n {
      assert !Visited(before, trace[n].id);
      UnvisitedRowUnchanged(t, before, trace[n].id);
      StepIsDurable(Run(t, before), trace[n]);
    } else {
      OutcomesAreDurable(t, before, k);
      OtherStepKeepsDurable(Run(t, before), trace[k], trace[n]);
    }
  }

  /** The text in a column, when there is one. */
  ghost predicate Holds(row: MediaRow, c: Column, value: Option<string>) {
    match value
    case Some(text) => c in row.optional && row.optional[c] == Text(text)
    case None => c !in row.optional || !row.optional[c].Text?
  }

  lemma TextHolds(row: MediaRow, c: Column)
    ensures Holds(row, c, TextOf(row, c))
  {}

  lemma RecordShows(row: MediaRow, hash: string, metadata: string)
    ensures var record := PHashRecord(row, hash, metadata);
            && record.value == hash && record.metadata == Some(metadata)
            && record.numFrames == 10 && record.hashSize == 8
            && (|hash| <= 0x7fff_ffff ==> record.bitLength == |hash|)
            && Holds(row, StorageProvider, record.provider)
            && Holds(row, Bucket, record.bucket)
            && Holds(row, ObjectKey, record.objectKey)
  {
    TextHolds(row, StorageProvider);
    TextHolds(row, Bucket);
    TextHolds(row, ObjectKey);
    hide TextOf, Holds;
  }

  /**
   A success in the columns of its tables: ten hashes of eight by eight, computed
   from the provider, bucket and key that the master row names.
   */
  lemma HashedIsStored(t: Tables, trace: seq<Step>, k: nat)
    requires TakesEachOnce(t, trace) && k < |trace| && trace[k].outcome.Hashed?
    ensures var (id, now, hash) := (trace[k].id, Run(t, trace), trace[k].outcome.hash);
            var key := HashKey(id, "phash", "offchain_binary_10x8_v1", "current_stored_object_v1");
            && id in t.master && key in now.hashes
            && HashUpserted(key, hash) in now.feed
            && (forall f: FailureKey :: f in now.failures && f.jobKind == "media_phash" ==> f.item != id)
            && var record := now.hashes[key];
               && record.value == hash && record.metadata == Some(trace[k].outcome.metadata)
               && record.numFrames == 10 && record.hashSize == 8
               && (|hash| <= 0x7fff_ffff ==> record.bitLength == |hash|)
               && Holds(t.master[id], StorageProvider, record.provider)
               && Holds(t.master[id], Bucket, record.bucket)
               && Holds(t.master[id], ObjectKey, record.objectKey)
  {
    OutcomesAreDurable(t, trace, k);
    RecordShows(trace[k].row, trace[k].outcome.hash, trace[k].outcome.metadata);
    hide Run, PHashRecord, Holds;
    forall f: FailureKey | f in Run(t, trace).failures && f.jobKind == "media_phash" ensures f.item != trace[k].id {
      assert f !in FailuresOf(Run(t, trace), JOB_KIND, trace[k].id);
    }
  }

  /** A failure: on record with its message, and not retried for five minutes at least and a day at most. */
  lemma FailedIsOnRecord(t: Tables, trace: seq<Step>, k: nat)
    requires TakesEachOnce(t, trace) && k < |trace| && trace[k].outcome.FailedIn?
    ensures var (id, now, at) := (trace[k].id, Run(t, trace), trace[k].at);
            var key := FailureKey("media_phash", id, trace[k].outcome.phase);
            && HashKey(id, "phash", "offchain_binary_10x8_v1", "current_stored_object_v1") !in now.hashes
            && key in now.failures && now.failures[key].lastError == trace[k].outcome.error
            && now.failures[key].retryCount >= 1
            && now.failures[key].nextRetryAt.Some?
            && at + 5 <= now.failures[key].nextRetryAt.value <= at + 1440
  {
    OutcomesAreDurable(t, trace, k);
    hide Run;
  }

  /** The answer of a store, as the outcome of the row. */
  ghost predicate IsOutcomeOf(outcome: Outcome, answer: Answer, download: string) {
    match answer
    case NoDownload(m) => outcome == FailedIn("phash_download", download + m)
    case NoDecode(m) => outcome == FailedIn("phash_decode", m)
    case Read(hash, metadata) => outcome == Hashed(hash, metadata)
  }

  /**
   Which copy a row is hashed from, in its columns: the key it holds in the store it
   names, which is Storj when it names none; without a key, or with another name,
   nothing is read.
   */
  lemma OutcomeIsThatOfTheCopy(world: World, id: VideoId, row: MediaRow, provider: Option<string>, key: Option<string>)
    requires Holds(row, StorageProvider, provider) && Holds(row, ObjectKey, key)
    ensures var outcome := OutcomeOf(world, id, row);
            if provider == Some("hetzner") then
              if key.None? then outcome == FailedIn("phash_download", "hetzner row missing object_key")
              else IsOutcomeOf(outcome, world(id, HetznerStore, key.value), "hetzner download " + key.value + ": ")
            else if provider == Some("storj") || provider == None then
              if key.None? then outcome == FailedIn("phash_download", "storj row missing object_key")
              else IsOutcomeOf(outcome, world(id, StorjStore, key.value), "storj download " + key.value + ": ")
            else outcome == FailedIn("phash_download", "unknown storage provider: " + provider.value)
  {
    assert TextOf(row, StorageProvider) == provider && TextOf(row, ObjectKey) == key;
    hide TextOf, Holds;
  }

  ghost predicate Counted(summary: PHashSummary, trace: seq<Step>) {
    && summary.scanned == |trace|
    && summary.hashesUpserted == summary.eventsAppended == Hashes(trace)
    && summary.hashesUpserted + summary.failures == |trace|
  }

  lemma FollowsOn(world: World, trace: seq<Step>, step: Step)
    requires Follows(world, trace) && step.outcome == OutcomeOf(world, step.id, step.row)
    ensures Follows(world, trace + [step])
  {}

  lemma TraceExtends(t: Tables, trace: seq<Step>, step: Step)
    requires TakesEachOnce(t, trace) && !Visited(trace, step.id)
    requires step.id in t.master && step.row == t.master[step.id] && CanonicalKey(step.id) !in t.hashes
    ensures TakesEachOnce(t, trace + [step])
    ensures Hashes(trace + [step]) == Hashes(trace) + if step.outcome.Hashed? then 1 else 0
    ensures forall id :: Visited(trace + [step], id) <==> Visited(trace, id) || id == step.id
  {
    hide Visited;
    var longer := trace + [step];
    assert longer[..|trace|] == trace;
    OthersVisited(trace, step.id);
    VisitedExtends(trace, step);
  }

  lemma OthersVisited(trace: seq<Step>, id: VideoId)
    requires !Visited(trace, id)
    ensures forall k :: 0 <= k < |trace| ==> trace[k].id != id
  {}

  lemma VisitedExtends(trace: seq<Step>, step: Step)
    ensures forall id :: Visited(trace + [step], id) <==> Visited(trace, id) || id == step.id
  {
    var longer := trace + [step];
    forall id ensures Visited(longer, id) <==> Visited(trace, id) || id == step.id {
      if Visited(trace, id) {
        var k :| 0 <= k < |trace| && trace[k].id == id;
        assert longer[k].id == id;
      }
      assert longer[|trace|].id == step.id;
    }
  }

  /** The outcomes were recorded one after the other, between two moments. */
  ghost predicate Timed(trace: seq<Step>, start: int, end: int) {
    && start <= end
    && (forall k :: 0 <= k < |trace| ==> start <= trace[k].at <= end)
    && (forall j, k :: 0 <= j < k < |trace| ==> trace[j].at <= trace[k].at)
  }

  lemma TimedExtends(trace: seq<Step>, start: int, end: int, step: Step)
    requires Timed(trace, start, end) && end <= step.at
    ensures Timed(trace + [step], start, step.at)
  {}

  lemma TimePasses(trace: seq<Step>, start: int, end: int, later: int)
    requires Timed(trace, start, end) && end <= later
    ensures Timed(trace, start, later)
  {}

  /** None of the first answers of the cancel token was yes. */
  ghost predicate NoCancel(cancel: nat -> bool, polls: nat) {
    forall i :: 0 <= i < polls ==> !cancel(i)
  }

  /** The token was asked some more times, and what it said last is what counts. */
  ghost predicate Polled(cancel: nat -> bool, polls0: nat, polls: nat, cancelled: bool) {
    && polls0 <= polls
    && if cancelled then polls0 < polls && NoCancel(cancel, polls - 1) && cancel(polls - 1) else NoCancel(cancel, polls)
  }

  lemma NothingAsked(world: World, cancel: nat -> bool)
    ensures Follows(world, []) && NoCancel(cancel, 0)
  {}

  lemma AskedAgain(cancel: nat -> bool, polls: nat)
    requires NoCancel(cancel, polls)
    ensures Polled(cancel, polls, polls + 1, cancel(polls))
  {}

  lemma LastAnswer(cancel: nat -> bool, polls0: nat, polls: nat, cancelled: bool)
    requires Polled(cancel, polls0, polls, cancelled)
    ensures polls0 <= polls
    ensures if cancelled then polls0 < polls && cancel(polls - 1) else NoCancel(cancel, polls)
    ensures polls > 0 ==> NoCancel(cancel, polls - 1) && (cancel(polls - 1) <==> cancelled)
  {}

  /** What failed in a drain is selected by none before five minutes after the drain's start. */
  lemma FailedInDrainWaits(t: Tables, trace: seq<Step>, start: int, end: int, k: nat, now: int)
    requires TakesEachOnce(t, trace) && Timed(trace, start, end) && k < |trace| && trace[k].outcome.FailedIn?
    requires now < start + FIRST_BACKOFF
    ensures !Eligible(Run(t, trace), trace[k].id, now)
  {
    OutcomesAreDurable(t, trace, k);
    assert FailureKey(JOB_KIND, trace[k].id, trace[k].outcome.phase) in Run(t, trace).failures;
  }

  /**
   A row that fails in a phase in which more than thirty-four failures of it are on
   record: its next failure cannot be written.
   */
  ghost predicate Stuck(t: Tables, world: World, id: VideoId) {
    && id in t.master && CanonicalKey(id) !in t.hashes
    && var outcome := OutcomeOf(world, id, t.master[id]);
       && outcome.FailedIn?
       && FailureKey("media_phash", id, outcome.phase) in t.failures
       && t.failures[FailureKey("media_phash", id, outcome.phase)].retryCount > 34
  }

  lemma StuckIff(t: Tables, trace: seq<Step>, world: World, step: Step)
    requires !Visited(trace, step.id)
    requires step.id in t.master && step.row == t.master[step.id] && CanonicalKey(step.id) !in t.hashes
    requires step.outcome == OutcomeOf(world, step.id, step.row)
    ensures !Recordable(Run(t, trace), step) <==> Stuck(t, world, step.id)
  {
    UnvisitedRowUnchanged(t, trace, step.id);
    hide Run, OutcomeOf, FitsInterval, Visited;
    if step.outcome.FailedIn? {
      var key := FailureKey(JOB_KIND, step.id, step.outcome.phase);
      if key in t.failures { FitsUpTo34(t.failures[key].retryCount); }
    }
  }

  /** No drain gets past such a row, so it cannot take every row that is eligible. */
  lemma {:induction false} StuckRowIsNeverTaken(t: Tables, world: World, trace: seq<Step>, id: VideoId)
    requires TakesEachOnce(t, trace) && Follows(world, trace) && AllRecordable(t, trace)
    requires Stuck(t, world, id)
    ensures !Visited(trace, id)
  {
    if k :| 0 <= k < |trace| && trace[k].id == id {
      assert Recordable(Run(t, trace[..k]), trace[k]);
      assert !Visited(trace[..k], id);
      StuckIff(t, trace[..k], world, trace[k]);
      assert false;
    }
  }

  /**
   The rows of one page, in whatever order their hashes arrive.  `now` is the
   clock; a cancel leaves the rest of the page for a later run.
   */
  method DrainPage(conn: Connection, page: set<VideoId>, summary0: PHashSummary, now0: int,
                   world: World, cancel: nat -> bool, polls0: nat,
                   ghost start: int, ghost t: Tables, ghost trace0: seq<Step>)
    returns (r: Result<PHashSummary, SqlError>, cancelled: bool, polls: nat, now: int, ghost trace: seq<Step>)
    requires conn.Valid() && conn.committed == Run(t, trace0)
    requires TakesEachOnce(t, trace0) && Counted(summary0, trace0)
    requires Timed(trace0, start, now0) && Follows(world, trace0)
    requires NoCancel(cancel, polls0) && AllRecordable(t, trace0)
    requires forall id :: id in page ==> id in t.master && CanonicalKey(id) !in t.hashes && !Visited(trace0, id)
    modifies conn`committed, conn`committedCursors, conn`view, conn`viewCursors
    modifies conn`nextCursor, conn`session, conn`faults
    ensures conn.Valid() && conn.committed == Run(t, trace) && now0 <= now && Timed(trace, start, now)
    ensures TakesEachOnce(t, trace) && |trace0| <= |trace| <= |trace0| + |page| && Follows(world, trace)
    ensures Polled(cancel, polls0, polls, cancelled)
    ensures AllRecordable(t, trace) && old(conn.faults) <= conn.faults
    ensures r.Ok? ==> conn.faults == old(conn.faults)
    ensures r.Err? && conn.faults == old(conn.faults) ==> exists id :: id in page && Stuck(t, world, id)
    ensures forall id :: Visited(trace, id) ==> Visited(trace0, id) || id in page
    ensures forall id :: Visited(trace0, id) ==> Visited(trace, id)
    ensures r.Ok? ==> Counted(r.value, trace)
    ensures r.Ok? && !cancelled ==> forall id :: id in page ==> Visited(trace, id)
  {
    hide Connection.Valid, Run, StepAfter, TakesEachOnce, Visited, Hashes, Timed, Follows, OutcomeOf, AllRecordable,
      Recordable, Stuck;
    cancelled, polls, now, trace := false, polls0, now0, trace0;
    var summary, todo := summary0, page;
    while todo != {}
      invariant todo <= page && |todo| <= |page| && |trace| + |todo| == |trace0| + |page|
      invariant conn.Valid() && conn.committed == Run(t, trace) && now0 <= now && Timed(trace, start, now)
      invariant TakesEachOnce(t, trace) && Counted(summary, trace) && Follows(world, trace) && AllRecordable(t, trace)
      invariant !cancelled && polls0 <= polls && NoCancel(cancel, polls) && conn.faults == old(conn.faults)
      invariant forall id :: id in todo ==> !Visited(trace, id)
      invariant forall id :: Visited(trace, id) ==> Visited(trace0, id) || id in page
      invariant forall id :: Visited(trace0, id) ==> Visited(trace, id)
      invariant forall id :: id in page ==> id in todo || Visited(trace, id)
      decreases todo
    {
      NonEmpty(todo);
      var id :| id in todo;
      MasterUnchanged(t, trace);
      var row := conn.committed.master[id];
      var outcome := Compute(world, id, row);
      var later: int := *;
      if now < later {
        TimePasses(trace, start, now, later);
        now := later;
      }
      cancelled := cancel(polls);
      polls := polls + 1;
      if cancelled { return Ok(summary), cancelled, polls, now, trace; }
      summary := summary.(scanned := summary.scanned + 1);
      var step := Step(id, row, outcome, now);
      SuccessIsNew(t, trace, step);
      StuckIff(t, trace, world, step);
      var persisted := PersistOne(conn, step, summary);
      if persisted.Err? { return Err(persisted.error), cancelled, polls, now, trace; }
      summary := persisted.value;
      RunExtends(t, trace, step);
      TraceExtends(t, trace, step);
      RecordableExtends(t, trace, step);
      TimedExtends(trace, start, now, step);
      FollowsOn(world, trace, step);
      trace := trace + [step];
      todo := todo - {id};
    }
    r := Ok(summary);
  }

  /** The page query: the next selected rows after the cursor, in id order; the database refuses a negative LIMIT. */
  method FetchSelection(conn: Connection, now: int, after: Option<VideoId>, hash: Hashing, shard: Option<(int, int)>,
                        limit: int)
    returns (r: Result<seq<VideoId>, SqlError>)
    requires conn.Valid() && (shard.Some? ==> shard.value.0 >= 1)
    modifies conn`faults
    ensures conn.Valid() && conn.faults == old(conn.faults) + if r.Ok? || limit < 0 then 0 else 1
    ensures r.Ok? ==> limit >= 0 && IsPage(r.value, Selection(conn.committed, now, after, hash, shard), limit)
    ensures r.Ok? ==>
              forall id :: id in r.value ==>
                Eligible(conn.committed, id, now) && After(after, id) && InShard(hash, shard, id)
  {
    if limit < 0 { return Err("LIMIT must not be negative"); }
    var error := conn.Execute();
    if error.Some? { return Err(error.value); }
    var rows := FirstRows(Sorted(Selection(conn.committed, now, after, hash, shard)), limit);
    FirstRowsAreThePage(rows, Selection(conn.committed, now, after, hash, shard), limit);
    r := Ok(rows);
  }

  function KeysAfter(t: Tables, after: Option<VideoId>): set<VideoId> {
    set id | id in t.master && After(after, id)
  }

  lemma KeysShrink(t: Tables, after: Option<VideoId>, id: VideoId)
    requires id in t.master && After(after, id)
    ensures KeysAfter(t, Some(id)) < KeysAfter(t, after)
  {
    assert id in KeysAfter(t, after) && id !in KeysAfter(t, Some(id));
  }

  ghost predicate Sound(t: Tables, hash: Hashing, shard: Option<(int, int)>, trace: seq<Step>)
    requires shard.Some? ==> shard.value.0 >= 1
  {
    TakesEachOnce(t, trace) && forall id :: Visited(trace, id) ==> InShard(hash, shard, id)
  }

  ghost predicate AllVisited(t: Tables, start: int, hash: Hashing, shard: Option<(int, int)>, trace: seq<Step>)
    requires shard.Some? ==> shard.value.0 >= 1
  {
    forall id :: id in Selection(t, start, None, hash, shard) ==> Visited(trace, id)
  }

  /** Between pages: rows taken are at or before the cursor, and no row eligible at the start was stepped over. */
  ghost predicate Swept(t: Tables, start: int, hash: Hashing, shard: Option<(int, int)>, trace: seq<Step>,
                        after: Option<VideoId>)
    requires shard.Some? ==> shard.value.0 >= 1
  {
    && (forall id :: Visited(trace, id) ==> !After(after, id))
    && (forall id :: id in Selection(t, start, None, hash, shard) ==> Visited(trace, id) || After(after, id))
  }

  /** A page is rows the drain may take. */
  ghost predicate IsNewWork(t: Tables, hash: Hashing, shard: Option<(int, int)>, trace: seq<Step>,
                            after: Option<VideoId>, rows: seq<VideoId>)
    requires shard.Some? ==> shard.value.0 >= 1
  {
    forall id :: id in rows ==>
      && id in t.master && CanonicalKey(id) !in t.hashes && !Visited(trace, id)
      && After(after, id) && InShard(hash, shard, id) && id <= rows[|rows| - 1]
  }

  /** A page fetched at the cursor is new work. */
  lemma PageIsNewWork(t: Tables, now: int, hash: Hashing, shard: Option<(int, int)>, trace: seq<Step>,
                      after: Option<VideoId>, limit: nat)
    requires shard.Some? ==> shard.value.0 >= 1
    requires forall id :: Visited(trace, id) ==> !After(after, id)
    ensures var rows := FirstRows(Sorted(Selection(Run(t, trace), now, after, hash, shard)), limit);
            |rows| <= limit && IsNewWork(t, hash, shard, trace, after, rows)
  {
    hide Run, Selection, InShard, Visited, Sorted, FirstRows, After;
    var sel := Selection(Run(t, trace), now, after, hash, shard);
    FirstPage(sel, limit);
    var rows := FirstRows(Sorted(sel), limit);
    forall id | id in rows
      ensures id in t.master && CanonicalKey(id) !in t.hashes && !Visited(trace, id) && After(after, id)
        && InShard(hash, shard, id) && id <= rows[|rows| - 1]
    {
      SelectedIsNew(t, now, hash, shard, trace, after, id);
    }
  }

  /** What a page leaves out, of the rows eligible at the start, was taken before or is past its end. */
  ghost predicate LeavesOutOnlyLater(t: Tables, start: int, hash: Hashing, shard: Option<(int, int)>,
                                     trace: seq<Step>, rows: seq<VideoId>)
    requires shard.Some? ==> shard.value.0 >= 1
    requires rows != []
  {
    forall id :: id in Selection(t, start, None, hash, shard) ==>
        Visited(trace, id) || id in rows || rows[|rows| - 1] < id
  }

  lemma PageLeavesOutOnlyLater(t: Tables, start: int, now: int, hash: Hashing, shard: Option<(int, int)>,
                               trace: seq<Step>,
                               after: Option<VideoId>, limit: nat)
    requires (shard.Some? ==> shard.value.0 >= 1) && start <= now
    requires Swept(t, start, hash, shard, trace, after)
    ensures var rows := FirstRows(Sorted(Selection(Run(t, trace), now, after, hash, shard)), limit);
            if rows != [] then LeavesOutOnlyLater(t, start, hash, shard, trace, rows)
            else limit > 0 ==> AllVisited(t, start, hash, shard, trace)
  {
    hide Run, Selection, InShard, Visited, Swept, Sorted, FirstRows;
    var sel := Selection(Run(t, trace), now, after, hash, shard);
    FirstPage(sel, limit);
    forall id | id in Selection(t, start, None, hash, shard) ensures Visited(trace, id) || id in sel {
      StaysSelected(t, start, now, hash, shard, trace, after, id);
    }
  }

  lemma SelectedIsNew(t: Tables, now: int, hash: Hashing, shard: Option<(int, int)>, trace: seq<Step>,
                      after: Option<VideoId>, id: VideoId)
    requires shard.Some? ==> shard.value.0 >= 1
    requires forall id :: Visited(trace, id) ==> !After(after, id)
    requires id in Selection(Run(t, trace), now, after, hash, shard)
    ensures id in t.master && CanonicalKey(id) !in t.hashes && !Visited(trace, id) && After(after, id)
              && InShard(hash, shard, id)
  {
    hide Run;
    MasterUnchanged(t, trace);
  }

  lemma StaysSelected(t: Tables, start: int, now: int, hash: Hashing, shard: Option<(int, int)>, trace: seq<Step>,
                      after: Option<VideoId>, id: VideoId)
    requires (shard.Some? ==> shard.value.0 >= 1) && start <= now
    requires Swept(t, start, hash, shard, trace, after)
    requires id in Selection(t, start, None, hash, shard)
    ensures Visited(trace, id) || id in Selection(Run(t, trace), now, after, hash, shard)
  {
    hide Run, Visited;
    if !Visited(trace, id) {
      MasterUnchanged(t, trace);
      StaysEligible(t, trace, id, start, now);
    }
  }

  lemma PageKeepsSwept(t: Tables, start: int, hash: Hashing, shard: Option<(int, int)>, trace: seq<Step>,
                       after: Option<VideoId>, rows: seq<VideoId>, now: seq<Step>)
    requires shard.Some? ==> shard.value.0 >= 1
    requires Swept(t, start, hash, shard, trace, after) && rows != [] && IsNewWork(t, hash, shard, trace, after, rows)
    requires LeavesOutOnlyLater(t, start, hash, shard, trace, rows)
    requires forall id :: Visited(now, id) <==> Visited(trace, id) || id in rows
    ensures Swept(t, start, hash, shard, now, Some(rows[|rows| - 1]))
  {
    hide Visited, Selection, InShard;
    assert rows[|rows| - 1] in rows;
  }

  lemma NothingSwept(t: Tables, start: int, hash: Hashing, shard: Option<(int, int)>)
    requires shard.Some? ==> shard.value.0 >= 1
    ensures Swept(t, start, hash, shard, [], None) && Sound(t, hash, shard, []) && Counted(PHashSummary(0, 0, 0, 0), [])
  {}

  /** One page of the scan at a cursor: fetch it, drain it, and account for what it took. */
  method SweepPage(conn: Connection, batchLimit: int, hash: Hashing, shard: Option<(int, int)>, after: Option<VideoId>,
                   summary: PHashSummary, now0: int, world: World, cancel: nat -> bool, polls0: nat,
                   ghost start: int, ghost t: Tables, ghost trace0: seq<Step>)
    returns (r: Result<PHashSummary, SqlError>, cancelled: bool, polls: nat, now: int, last: Option<VideoId>,
             ghost trace: seq<Step>)
    requires conn.Valid() && conn.committed == Run(t, trace0) && (shard.Some? ==> shard.value.0 >= 1)
    requires Sound(t, hash, shard, trace0) && Counted(summary, trace0) && start <= now0 && Timed(trace0, start, now0)
    requires Follows(world, trace0) && NoCancel(cancel, polls0) && AllRecordable(t, trace0)
    requires Swept(t, start, hash, shard, trace0, after)
    modifies conn`committed, conn`committedCursors, conn`view, conn`viewCursors
    modifies conn`nextCursor, conn`session, conn`faults
    ensures conn.Valid() && conn.committed == Run(t, trace) && now0 <= now && Timed(trace, start, now)
    ensures Sound(t, hash, shard, trace) && Follows(world, trace) && Polled(cancel, polls0, polls, cancelled)
    ensures AllRecordable(t, trace) && old(conn.faults) <= conn.faults
    ensures r.Ok? ==> conn.faults == old(conn.faults)
    ensures r.Err? && batchLimit >= 0 && conn.faults == old(conn.faults) ==>
              exists id :: Stuck(t, world, id) && InShard(hash, shard, id)
    ensures |trace| <= |trace0| + if batchLimit >= 0 then batchLimit else 0
    ensures r.Ok? ==> 0 <= batchLimit && Counted(r.value, trace) && r.value.scanned == |trace|
    ensures r.Ok? && last.None? ==> trace == trace0 && !cancelled
    ensures r.Ok? && last.None? && batchLimit > 0 ==> AllVisited(t, start, hash, shard, trace)
    ensures r.Ok? && last.Some? ==> KeysAfter(t, last) < KeysAfter(t, after)
    ensures r.Ok? && last.Some? && !cancelled ==> Swept(t, start, hash, shard, trace, last)
  {
    hide Connection.Valid, Run, StepAfter, TakesEachOnce, Visited, Hashes, Timed, Follows, AllRecordable, Stuck,
      Selection, InShard, Sorted, AllVisited, LeavesOutOnlyLater, IsPage, Eligible;
    cancelled, polls, now, last, trace := false, polls0, now0, None, trace0;
    var fetched := FetchSelection(conn, now, after, hash, shard, batchLimit);
    if fetched.Err? { return Err(fetched.error), cancelled, polls, now, last, trace; }
    var rows := fetched.value;
    FirstRowsAreThePage(rows, Selection(conn.committed, now, after, hash, shard), batchLimit);
    PageIsNewWork(t, now, hash, shard, trace, after, batchLimit);
    PageLeavesOutOnlyLater(t, start, now, hash, shard, trace, after, batchLimit);
    if rows == [] { return Ok(summary), cancelled, polls, now, last, trace; }
    last := Some(rows[|rows| - 1]);
    assert last.value in rows;
    KeysShrink(t, after, last.value);
    FewerElements(rows);
    var drained;
    drained, cancelled, polls, now, trace :=
      DrainPage(conn, Elements(rows), summary, now, world, cancel, polls, start, t, trace0);
    if drained.Ok? && !cancelled {
      PageKeepsSwept(t, start, hash, shard, trace0, after, rows, trace);
    }
    r := drained;
  }

  /**
   The drain.  Every table it writes is that of `trace`, in which no row appears
   twice; it ends, and a run that was neither cancelled nor limited has taken
   every row that its selection held at the start.  A row whose failure cannot be
   recorded ends the run with an error, this one and every later one that reaches it.
   */
  method RunInner(conn: Connection, limit: Option<int>, pageSize: int, hash: Hashing, shard: Option<(int, int)>,
                  start: int, world: World, cancel: nat -> bool)
    returns (r: Result<PHashSummary, SqlError>, end: int, polls: nat, ghost trace: seq<Step>)
    requires conn.Valid() && (shard.Some? ==> shard.value.0 >= 1)
    modifies conn
    ensures conn.Valid() && conn.committed == Run(old(conn.committed), trace)
    ensures Sound(old(conn.committed), hash, shard, trace) && Timed(trace, start, end)
    ensures r.Ok? ==> Counted(r.value, trace)
    ensures limit.Some? ==> |trace| <= if limit.value >= 0 then limit.value else 0
    ensures r.Ok? && conn.jobStatus != Cancelled && pageSize > 0 ==>
              AllVisited(old(conn.committed), start, hash, shard, trace) || limit == Some(|trace|)
    ensures pageSize <= 0 ==> trace == []
    ensures Follows(world, trace) && AllRecordable(old(conn.committed), trace)
    ensures old(conn.faults) <= conn.faults
    ensures conn.faults == old(conn.faults) && pageSize >= 0 && (limit.Some? ==> limit.value >= 0) ==>
              r.Ok? || exists id :: Stuck(old(conn.committed), world, id) && InShard(hash, shard, id)
    ensures pageSize > 0 && limit.None? && (forall i :: !cancel(i)) ==>
              forall id :: id in Selection(old(conn.committed), start, None, hash, shard) ==>
                Stuck(old(conn.committed), world, id) ==> r.Err?
    ensures r.Ok? ==> polls > 0 && NoCancel(cancel, polls - 1) && (conn.jobStatus == Cancelled <==> cancel(polls - 1))
    ensures r.Ok? && conn.jobStatus != Cancelled ==>
              conn.jobStatus == if r.value.failures == 0 then Succeeded else SucceededWithFailures
  {
    hide *;
    ghost var t := conn.committed;
    trace, polls := [], 0;
    end := start;
    var summary := PHashSummary(0, 0, 0, 0);
    var after: Option<VideoId> := None;
    var cancelled := false;
    NothingSwept(t, start, hash, shard);
    EmptyRun(t, start);
    NothingAsked(world, cancel);
    while true
      invariant conn.Valid() && conn.committed == Run(t, trace) && start <= end && Timed(trace, start, end)
      invariant Sound(t, hash, shard, trace) && Counted(summary, trace)
      invariant Swept(t, start, hash, shard, trace, after) && summary.scanned == |trace|
      invariant limit.Some? ==> |trace| <= if limit.value >= 0 then limit.value else 0
      invariant pageSize <= 0 ==> trace == []
      invariant !cancelled && NoCancel(cancel, polls) && Follows(world, trace) && conn.faults == old(conn.faults)
      invariant AllRecordable(t, trace)
      invariant limit.Some? && limit.value >= 0 ==> summary.scanned <= limit.value
      decreases KeysAfter(t, after)
    {
      AskedAgain(cancel, polls);
      cancelled := cancel(polls);
      polls := polls + 1;
      LastAnswer(cancel, polls - 1, polls, cancelled);
      if cancelled { break; }
      if limit == Some(summary.scanned) { break; }
      var batchLimit := match limit case None => pageSize
                        case Some(l) => if l - summary.scanned < pageSize then l - summary.scanned else pageSize;
      ghost var polled := polls;
      var swept, last;
      swept, cancelled, polls, end, last, trace :=
        SweepPage(conn, batchLimit, hash, shard, after, summary, end, world, cancel, polls, start, t, trace);
      LastAnswer(cancel, polled, polls, cancelled);
      if swept.Err? { return Err(swept.error), end, polls, trace; }
      summary := swept.value;
      if last.None? || cancelled { break; }
      after := last;
    }
    SoundTakesEachOnce(t, hash, shard, trace);
    if AllVisited(t, start, hash, shard, trace) { AllVisitedNoneStuck(t, start, world, hash, shard, trace); }
    var status := if cancelled then Cancelled else if summary.failures == 0 then Succeeded else SucceededWithFailures;
    var completed := conn.SetJobStatus(status);
    if completed.Some? { return Err(completed.value), end, polls, trace; }
    r := Ok(summary);
  }

  lemma SoundTakesEachOnce(t: Tables, hash: Hashing, shard: Option<(int, int)>, trace: seq<Step>)
    requires (shard.Some? ==> shard.value.0 >= 1) && Sound(t, hash, shard, trace)
    ensures TakesEachOnce(t, trace)
  {}

  lemma AllVisitedNoneStuck(t: Tables, start: int, world: World, hash: Hashing, shard: Option<(int, int)>,
                            trace: seq<Step>)
    requires shard.Some? ==> shard.value.0 >= 1
    requires TakesEachOnce(t, trace) && Follows(world, trace) && AllRecordable(t, trace)
    requires AllVisited(t, start, hash, shard, trace)
    ensures forall id :: id in Selection(t, start, None, hash, shard) ==> !Stuck(t, world, id)
  {
    hide Selection, Visited, Stuck;
    forall id | id in Selection(t, start, None, hash, shard) ensures !Stuck(t, world, id) {
      if Stuck(t, world, id) { StuckRowIsNeverTaken(t, world, trace, id); }
    }
  }

  lemma EmptyRun(t: Tables, start: int)
    ensures Run(t, []) == t && Timed([], start, start) && AllRecordable(t, [])
  {}
}
