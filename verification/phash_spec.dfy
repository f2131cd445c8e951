/**
 The perceptual-hash drain: which rows it selects, what one outcome writes, and
 how failures back off.  Times are minutes of the database clock.
 */
module PHashSpec {
  import opened Wrappers
  import opened Machine
  import opened SortedIds
  import opened MediaTables
  import opened Shards

  const JOB_KIND := "media_phash"
  const HASH_KIND := "phash"
  const HASH_VERSION := "offchain_binary_10x8_v1"
  const INPUT_MEDIA_VERSION := "current_stored_object_v1"
  const OFFCHAIN_NUM_FRAMES := 10
  const OFFCHAIN_HASH_SIZE := 8
  const FIRST_BACKOFF := 5
  const MAX_BACKOFF := 1440

  function CanonicalKey(id: VideoId): HashKey {
    HashKey(id, HASH_KIND, HASH_VERSION, INPUT_MEDIA_VERSION)
  }

  // ---- selection ----

  /** A failure row of any job with a retry time still to come. */
  predicate BackingOff(t: Tables, id: VideoId, now: int) {
    exists key :: key in t.failures && key.item == id
      && t.failures[key].nextRetryAt.Some? && now < t.failures[key].nextRetryAt.value
  }

  predicate Eligible(t: Tables, id: VideoId, now: int) {
    id in t.master && CanonicalKey(id) !in t.hashes && !BackingOff(t, id, now)
  }

  type Hashing = VideoId -> TextHash

  predicate InShard(hash: Hashing, shard: Option<(int, int)>, id: VideoId)
    requires shard.Some? ==> shard.value.0 >= 1
  {
    shard.None? || ShardOf(hash(id), shard.value.0) == Some(shard.value.1)
  }

  /** The drain's query without its limit. */
  function Selection(t: Tables, now: int, after: Option<VideoId>, hash: Hashing,
                     shard: Option<(int, int)>): set<VideoId>
    requires shard.Some? ==> shard.value.0 >= 1
  {
    set id | id in t.master && Eligible(t, id, now) && After(after, id) && InShard(hash, shard, id)
  }

  /**
   What the drain selects: rows of the master table without the canonical hash, past
   the cursor, in the shard, on none of whose failures a wait is running.
   */
  lemma SelectionIs(t: Tables, now: int, after: Option<VideoId>, hash: Hashing, shard: Option<(int, int)>, id: VideoId)
    requires shard.Some? ==> 1 <= shard.value.0 <= 0x7fff_ffff_8000_0000
    ensures id in Selection(t, now, after, hash, shard) <==>
            && id in t.master
            && HashKey(id, "phash", "offchain_binary_10x8_v1", "current_stored_object_v1") !in t.hashes
            && (forall key: FailureKey :: key in t.failures && key.item == id && t.failures[key].nextRetryAt.Some? ==>
                  t.failures[key].nextRetryAt.value <= now)
            && (after.Some? ==> after.value < id)
            && (shard.Some? ==> hash(id) % shard.value.0 == shard.value.1)
  {
    if shard.Some? {
      NoOverflowIff(shard.value.0);
      ShardIsResidue(hash(id), shard.value.0);
    }
    hide ShardOf;
  }

  /** The gate the worker asks before it starts a drain. */
  predicate AnyEligible(t: Tables, now: int) {
    exists id :: id in t.master && CanonicalKey(id) !in t.hashes && !BackingOff(t, id, now)
  }

  lemma GateAgreesWithSelection(t: Tables, now: int, hash: Hashing)
    ensures AnyEligible(t, now) <==> Selection(t, now, None, hash, None) != {}
  {
    if id :| id in t.master && CanonicalKey(id) !in t.hashes && !BackingOff(t, id, now) {
      assert id in Selection(t, now, None, hash, None);
    }
    if id :| id in Selection(t, now, None, hash, None) {
      assert Eligible(t, id, now);
    }
  }

  /**
   The shards that the request parser accepts for one count partition the
   selection: every selected row is in the selection of exactly one of them.
   */
  lemma ShardsPartition(t: Tables, now: int, after: Option<VideoId>, hash: Hashing, of: int, id: VideoId)
    requires 1 <= of <= I64_MAX - I32_MAX
    ensures id in Selection(t, now, after, hash, None) <==>
              exists idx :: ParseShard(Some(idx), Some(of)) == Ok(Some((of, idx)))
                && id in Selection(t, now, after, hash, Some((of, idx)))
    ensures forall i, j ::
              (id in Selection(t, now, after, hash, Some((of, i)))
               && id in Selection(t, now, after, hash, Some((of, j)))) ==> i == j
  {
    NoOverflowIff(of);
    ShardIsResidue(hash(id), of);
    var idx := hash(id) % of;
    assert ParseShard(Some(idx), Some(of)) == Ok(Some((of, idx)));
    if id in Selection(t, now, after, hash, None) {
      assert id in Selection(t, now, after, hash, Some((of, idx)));
    }
  }

  // ---- one outcome ----

  function TextOf(row: MediaRow, c: Column): Option<string> {
    if c in row.optional && row.optional[c].Text? then Some(row.optional[c].text) else None
  }

  function PHashRecord(row: MediaRow, hash: string, metadata: string): HashRecord {
    HashRecord(hash, AsI32(|hash|), OFFCHAIN_NUM_FRAMES, OFFCHAIN_HASH_SIZE,
               TextOf(row, StorageProvider), TextOf(row, Bucket), TextOf(row, ObjectKey), Some(metadata))
  }

  datatype Outcome = Hashed(hash: string, metadata: string) | FailedIn(phase: string, error: string)

  datatype Store = HetznerStore | StorjStore

  /** What downloading an object and hashing it would give. */
  datatype Answer = NoDownload(message: string) | NoDecode(message: string) | Read(hash: string, metadata: string)

  /** The stores, as a drain finds them. */
  type World = (VideoId, Store, string) -> Answer

  /** The store a row names: Storj when it names none. */
  function StoreOf(row: MediaRow): Result<Store, string> {
    match TextOf(row, StorageProvider)
    case None => Ok(StorjStore)
    case Some("storj") => Ok(StorjStore)
    case Some("hetzner") => Ok(HetznerStore)
    case Some(other) => Err(other)
  }

  function MissingKey(store: Store): string {
    match store
    case HetznerStore => "hetzner row missing object_key"
    case StorjStore => "storj row missing object_key"
  }

  function DownloadError(store: Store, key: string, message: string): string {
    match store
    case HetznerStore => "hetzner download " + key + ": " + message
    case StorjStore => "storj download " + key + ": " + message
  }

  /** What becomes of a row. */
  function OutcomeOf(world: World, id: VideoId, row: MediaRow): Outcome {
    match StoreOf(row)
    case Err(other) => FailedIn("phash_download", "unknown storage provider: " + other)
    case Ok(store) =>
      match TextOf(row, ObjectKey)
      case None => FailedIn("phash_download", MissingKey(store))
      case Some(key) =>
        match world(id, store, key)
        case NoDownload(m) => FailedIn("phash_download", DownloadError(store, key, m))
        case NoDecode(m) => FailedIn("phash_decode", m)
        case Read(hash, metadata) => Hashed(hash, metadata)
  }

  /** A row whose outcome was committed at a moment. */
  datatype Step = Step(id: VideoId, row: MediaRow, outcome: Outcome, at: int)

  /** LEAST(5 minutes * power(2, n), 24 hours), for a row that failed n times before. */
  function BackoffAfter(n: nat): nat {
    if FIRST_BACKOFF * Pow2(n) <= MAX_BACKOFF then FIRST_BACKOFF * Pow2(n) else MAX_BACKOFF
  }

  /** The INSERT of a first failure, or the update of a repeated one. */
  function FailureAfter(t: Tables, key: FailureKey, error: string, now: int): Failure {
    if key in t.failures
    then Failure(error, t.failures[key].retryCount + 1, Some(now + BackoffAfter(t.failures[key].retryCount)))
    else Failure(error, 1, Some(now + FIRST_BACKOFF))
  }

  function RecordFailure(t: Tables, id: VideoId, phase: string, error: string, now: int): Tables {
    var key := FailureKey(JOB_KIND, id, phase);
    t.(failures := t.failures[key := FailureAfter(t, key, error, now)])
  }

  function StoreHash(t: Tables, id: VideoId, record: HashRecord): Tables {
    var key := CanonicalKey(id);
    var stored := if HashOutcome(t, key, record) == Unchanged then t
                  else AppendEvent(UpsertHash(t, key, record), HashUpserted(key, record.value));
    WithoutFailures(stored, JOB_KIND, id)
  }

  function StepAfter(t: Tables, step: Step): Tables {
    match step.outcome
    case Hashed(hash, metadata) => StoreHash(t, step.id, PHashRecord(step.row, hash, metadata))
    case FailedIn(phase, error) => RecordFailure(t, step.id, phase, error, step.at)
  }

  function Run(t: Tables, trace: seq<Step>): Tables {
    if trace == [] then t else StepAfter(Run(t, trace[..|trace| - 1]), trace[|trace| - 1])
  }

  lemma RunExtends(t: Tables, trace: seq<Step>, step: Step)
    ensures Run(t, trace + [step]) == StepAfter(Run(t, trace), step)
  {
    assert (trace + [step])[..|trace|] == trace;
  }

  // ---- the range of an interval ----

  /** interval '5 minutes' * power(2, n) is computed, in 64-bit microseconds, before LEAST cuts it down. */
  predicate FitsInterval(n: nat) {
    300_000_000 * Pow2(n) <= I64_MAX
  }

  lemma FitsUpTo34(n: nat)
    ensures FitsInterval(n) <==> n <= 34
  {
    assert Pow2(2) == 4 && Pow2(4) == 16 && Pow2(6) == 64 && Pow2(8) == 256 && Pow2(10) == 0x400;
    assert Pow2(12) == 0x1000 && Pow2(14) == 0x4000 && Pow2(16) == 0x1_0000 && Pow2(18) == 0x4_0000;
    assert Pow2(20) == 0x10_0000 && Pow2(22) == 0x40_0000 && Pow2(24) == 0x100_0000 && Pow2(26) == 0x400_0000;
    assert Pow2(28) == 0x1000_0000 && Pow2(30) == 0x4000_0000 && Pow2(32) == 0x1_0000_0000;
    assert Pow2(34) == 0x4_0000_0000 && Pow2(35) == 0x8_0000_0000;
    if n <= 34 { Pow2Grows(n, 34); } else { Pow2Grows(35, n); }
  }

  /** The database can write what becomes of the row: it refuses a failure after too many others. */
  predicate Recordable(t: Tables, step: Step) {
    step.outcome.FailedIn? ==>
      var key := FailureKey(JOB_KIND, step.id, step.outcome.phase);
      key in t.failures ==> FitsInterval(t.failures[key].retryCount)
  }

  ghost predicate AllRecordable(t: Tables, trace: seq<Step>) {
    forall k :: 0 <= k < |trace| ==> Recordable(Run(t, trace[..k]), trace[k])
  }

  lemma RecordableExtends(t: Tables, trace: seq<Step>, step: Step)
    requires AllRecordable(t, trace) && Recordable(Run(t, trace), step)
    ensures AllRecordable(t, trace + [step])
  {
    hide Run, Recordable;
    var longer := trace + [step];
    forall k | 0 <= k < |longer| ensures Recordable(Run(t, longer[..k]), longer[k]) {
      assert longer[..k] == trace[..k];
      assert k == |trace| ==> trace[..k] == trace;
    }
  }

  /** So no row of the drain ever counts more than thirty-five failures. */
  lemma {:induction false} NeverPast35(t: Tables, trace: seq<Step>, key: FailureKey)
    requires AllRecordable(t, trace) && key.jobKind == "media_phash"
    requires key in t.failures ==> t.failures[key].retryCount <= 35
    ensures key in Run(t, trace).failures ==> Run(t, trace).failures[key].retryCount <= 35
  {
    if trace != [] {
      var n := |trace| - 1;
      assert forall k :: 0 <= k < n ==> trace[..n][..k] == trace[..k];
      NeverPast35(t, trace[..n], key);
      assert Recordable(Run(t, trace[..n]), trace[n]);
      FailureRowAfter(Run(t, trace[..n]), trace[n], key.item, key.phase);
      hide StepAfter, BackoffAfter, FitsInterval;
      if key in Run(t, trace[..n]).failures { FitsUpTo34(Run(t, trace[..n]).failures[key].retryCount); }
    }
  }

  // ---- backoff over any trace of outcomes ----

  /** Failures of a video in a phase since its last success. */
  function FailuresSince(trace: seq<Step>, id: VideoId, phase: string): nat {
    if trace == [] then 0
    else
      var last, before := trace[|trace| - 1], trace[..|trace| - 1];
      if last.id != id then FailuresSince(before, id, phase)
      else if last.outcome.Hashed? then 0
      else FailuresSince(before, id, phase) + if last.outcome.phase == phase then 1 else 0
  }

  /** When the last of those failures was recorded. */
  function LastFailureAt(trace: seq<Step>, id: VideoId, phase: string): int
    requires FailuresSince(trace, id, phase) > 0
  {
    var last, before := trace[|trace| - 1], trace[..|trace| - 1];
    if last.id == id && last.outcome == FailedIn(phase, last.outcome.error) then last.at
    else LastFailureAt(before, id, phase)
  }

  predicate Succeeds(trace: seq<Step>, id: VideoId) {
    exists k :: 0 <= k < |trace| && trace[k].id == id && trace[k].outcome.Hashed?
  }

  /** The count on record before the trace, unless a success within it has cleared it. */
  function CountBefore(t: Tables, trace: seq<Step>, key: FailureKey): nat {
    if key in t.failures && !Succeeds(trace, key.item) then t.failures[key].retryCount else 0
  }

  lemma SucceedsExtends(before: seq<Step>, step: Step, id: VideoId)
    ensures Succeeds(before + [step], id) <==> Succeeds(before, id) || (step.id == id && step.outcome.Hashed?)
  {
    var longer := before + [step];
    if k :| 0 <= k < |before| && before[k].id == id && before[k].outcome.Hashed? {
      assert longer[k] == before[k];
    }
    assert longer[|before|] == step;
  }

  function RowOf(t: Tables, key: FailureKey): Option<Failure> {
    if key in t.failures then Some(t.failures[key]) else None
  }

  /** What one outcome does to one failure row. */
  lemma FailureRowAfter(t: Tables, step: Step, id: VideoId, phase: string)
    ensures var key := FailureKey(JOB_KIND, id, phase);
            RowOf(StepAfter(t, step), key) ==
            if step.id != id then RowOf(t, key)
            else match step.outcome
                 case Hashed(_, _) => None
                 case FailedIn(p, error) =>
                   if p == phase then Some(FailureAfter(t, key, error, step.at)) else RowOf(t, key)
  {
    hide BackoffAfter, PHashRecord;
  }

  /**
   From any table: after k failures in one phase since the last success, the count
   is k on top of the count that was on record, and the retry time is the last
   failure plus the backoff of that count.  There is a row exactly when one was
   there and no success came, or k is positive; with k = 0 it is the old one.
   */
  lemma {:induction false} BackoffIsExponential(t: Tables, trace: seq<Step>, id: VideoId, phase: string)
    ensures var key, k, now := FailureKey(JOB_KIND, id, phase), FailuresSince(trace, id, phase), Run(t, trace);
            var base := CountBefore(t, trace, key);
            && (key in now.failures <==> k > 0 || (key in t.failures && !Succeeds(trace, id)))
            && (k == 0 && key in now.failures ==> now.failures[key] == t.failures[key])
            && (k > 0 ==>
                  && now.failures[key].retryCount == base + k
                  && now.failures[key].nextRetryAt
                      == Some(LastFailureAt(trace, id, phase) + BackoffAfter(base + k - 1)))
  {
    hide BackoffAfter, StepAfter, Succeeds;
    if trace == [] {
      NoSuccess(id);
    } else {
      var before, last := trace[..|trace| - 1], trace[|trace| - 1];
      assert trace == before + [last];
      SucceedsExtends(before, last, id);
      BackoffIsExponential(t, before, id, phase);
      FailureRowAfter(Run(t, before), last, id, phase);
      assert BackoffAfter(0) == FIRST_BACKOFF by { BackoffDoublesToADay(0); }
    }
  }

  lemma NoSuccess(id: VideoId)
    ensures !Succeeds([], id)
  {}

  /** Until then no drain and no shard of one selects the row. */
  lemma FailedRowWaits(t: Tables, trace: seq<Step>, id: VideoId, phase: string, now: int)
    requires FailuresSince(trace, id, phase) > 0
    requires var k, base := FailuresSince(trace, id, phase), CountBefore(t, trace, FailureKey(JOB_KIND, id, phase));
             now < LastFailureAt(trace, id, phase) + BackoffAfter(base + k - 1)
    ensures !Eligible(Run(t, trace), id, now)
  {
    BackoffIsExponential(t, trace, id, phase);
    assert FailureKey(JOB_KIND, id, phase) in Run(t, trace).failures;
  }

  /**
   When the database refuses a failure, over any trace from any table: exactly when the
   failures since the last success and those on record before are more than thirty-four.
   */
  lemma {:induction false} RefusedAfter34(t: Tables, trace: seq<Step>, failed: Step)
    requires failed.outcome.FailedIn?
    ensures var (id, phase) := (failed.id, failed.outcome.phase);
            Recordable(Run(t, trace), failed) <==>
              CountBefore(t, trace, FailureKey(JOB_KIND, id, phase)) + FailuresSince(trace, id, phase) <= 34
  {
    var key := FailureKey(JOB_KIND, failed.id, failed.outcome.phase);
    var now := Run(t, trace);
    BackoffIsExponential(t, trace, failed.id, failed.outcome.phase);
    if key in now.failures { FitsUpTo34(now.failures[key].retryCount); }
    hide Run, FitsInterval, BackoffAfter, LastFailureAt, FailuresSince;
  }

  /** The same failure again and again. */
  function Again(failed: Step, n: nat): seq<Step> {
    if n == 0 then [] else Again(failed, n - 1) + [failed]
  }

  lemma OneMoreFailure(before: seq<Step>, failed: Step)
    requires failed.outcome.FailedIn?
    ensures var phase := failed.outcome.phase;
            FailuresSince(before + [failed], failed.id, phase) == FailuresSince(before, failed.id, phase) + 1
  {
    assert (before + [failed])[..|before|] == before;
  }

  lemma NothingRecorded(t: Tables, failed: Step)
    requires failed.outcome.FailedIn?
    ensures AllRecordable(t, []) && FailuresSince([], failed.id, failed.outcome.phase) == 0
  {}

  lemma {:induction false} AgainIsRecorded(t: Tables, failed: Step, n: nat)
    requires failed.outcome.FailedIn? && FailureKey(JOB_KIND, failed.id, failed.outcome.phase) !in t.failures
    requires n <= 35
    ensures |Again(failed, n)| == n && FailuresSince(Again(failed, n), failed.id, failed.outcome.phase) == n
    ensures AllRecordable(t, Again(failed, n))
  {
    hide Run, Recordable, AllRecordable, FailuresSince, Succeeds;
    if n == 0 {
      NothingRecorded(t, failed);
    } else {
      var before := Again(failed, n - 1);
      AgainIsRecorded(t, failed, n - 1);
      OneMoreFailure(before, failed);
      RefusedAfter34(t, before, failed);
      RecordableExtends(t, before, failed);
    }
  }

  /** So a video that fails for good is recorded thirty-five times, and then no more. */
  lemma {:induction false} ThirtySixthFailureIsRefused(t: Tables, failed: Step)
    requires failed.outcome.FailedIn? && FailureKey("media_phash", failed.id, failed.outcome.phase) !in t.failures
    ensures AllRecordable(t, Again(failed, 35)) && !Recordable(Run(t, Again(failed, 35)), failed)
  {
    AgainIsRecorded(t, failed, 35);
    RefusedAfter34(t, Again(failed, 35), failed);
  }

  predicate Waiting(t: Tables, key: FailureKey, now: int) {
    key in t.failures && t.failures[key].nextRetryAt.Some? && now < t.failures[key].nextRetryAt.value
  }

  /** The wait of a video in a phase is over: that of its last failure, or the one on record before. */
  predicate WaitOver(t: Tables, trace: seq<Step>, id: VideoId, phase: string, now: int) {
    var key, k := FailureKey(JOB_KIND, id, phase), FailuresSince(trace, id, phase);
    if k > 0 then LastFailureAt(trace, id, phase) + BackoffAfter(CountBefore(t, trace, key) + k - 1) <= now
    else Succeeds(trace, id) || !Waiting(t, key, now)
  }

  lemma WaitOverIff(t: Tables, trace: seq<Step>, id: VideoId, phase: string, now: int)
    ensures WaitOver(t, trace, id, phase, now) <==> !Waiting(Run(t, trace), FailureKey(JOB_KIND, id, phase), now)
  {
    BackoffIsExponential(t, trace, id, phase);
    hide Run, BackoffAfter, Succeeds;
  }

  lemma {:induction false} OtherFailuresUntouched(t: Tables, trace: seq<Step>, key: FailureKey, now: int)
    requires key.jobKind != JOB_KIND
    ensures Waiting(Run(t, trace), key, now) <==> Waiting(t, key, now)
  {
    if trace != [] {
      OtherFailuresUntouched(t, trace[..|trace| - 1], key, now);
    }
  }

  lemma {:induction false} HashedIffSucceeds(t: Tables, trace: seq<Step>, id: VideoId)
    ensures Run(t, trace).master == t.master
    ensures CanonicalKey(id) in Run(t, trace).hashes <==> CanonicalKey(id) in t.hashes || Succeeds(trace, id)
  {
    hide Succeeds;
    if trace == [] {
      NoSuccess(id);
    } else {
      var before, last := trace[..|trace| - 1], trace[|trace| - 1];
      assert trace == before + [last];
      SucceedsExtends(before, last, id);
      HashedIffSucceeds(t, before, id);
    }
  }

  lemma BackingOffIff(t: Tables, id: VideoId, now: int)
    ensures BackingOff(t, id, now) <==> exists key: FailureKey :: key.item == id && Waiting(t, key, now)
  {
    if key: FailureKey :| key.item == id && Waiting(t, key, now) {
      assert key in t.failures;
    }
    if BackingOff(t, id, now) {
      var key :| (key in t.failures && key.item == id
                  && t.failures[key].nextRetryAt.Some? && now < t.failures[key].nextRetryAt.value);
      assert Waiting(t, key, now);
    }
  }

  /**
   A video is selectable again exactly when it is in the master table without its
   hash, and its waits are over: those of every phase of the drain, and those that
   other jobs have put on it.
   */
  lemma {:induction false} SelectableIff(t: Tables, trace: seq<Step>, id: VideoId, now: int)
    ensures Eligible(Run(t, trace), id, now) <==>
            && id in t.master && CanonicalKey(id) !in t.hashes && !Succeeds(trace, id)
            && (forall phase :: WaitOver(t, trace, id, phase, now))
            && (forall key: FailureKey :: key.item == id && key.jobKind != JOB_KIND ==> !Waiting(t, key, now))
  {
    var after := Run(t, trace);
    HashedIffSucceeds(t, trace, id);
    BackingOffIff(after, id, now);
    forall phase ensures WaitOver(t, trace, id, phase, now) <==> !Waiting(after, FailureKey(JOB_KIND, id, phase), now) {
      WaitOverIff(t, trace, id, phase, now);
    }
    forall key: FailureKey | key.jobKind != JOB_KIND ensures Waiting(after, key, now) <==> Waiting(t, key, now) {
      OtherFailuresUntouched(t, trace, key, now);
    }
    hide Run, BackingOff, WaitOver, Waiting, Succeeds;
    if key: FailureKey :| key.item == id && Waiting(after, key, now) {
      assert key == FailureKey(key.jobKind, id, key.phase);
    }
  }

  /** Successive drains are one trace, so the backoff counts across them. */
  lemma {:induction false} DrainsCompose(t: Tables, first: seq<Step>, second: seq<Step>)
    ensures Run(t, first + second) == Run(Run(t, first), second)
  {
    if second == [] {
      assert first + second == first;
    } else {
      var n := |second| - 1;
      DrainsCompose(t, first, second[..n]);
      assert (first + second)[..|first + second| - 1] == first + second[..n];
    }
  }

  /** The wait doubles from five minutes and is never longer than a day. */
  lemma BackoffDoublesToADay(n: nat)
    ensures BackoffAfter(0) == 5
    ensures BackoffAfter(n + 1) == if n <= 7 then 2 * BackoffAfter(n) else 1440
    ensures n <= 8 ==> BackoffAfter(n) == 5 * Pow2(n)
  {
    assert Pow2(0) == 1 && Pow2(1) == 2 && Pow2(2) == 4 && Pow2(3) == 8;
    assert Pow2(4) == 16 && Pow2(5) == 32 && Pow2(6) == 64;
    assert Pow2(7) == 128 && Pow2(8) == 256 && Pow2(9) == 512;
    if n >= 8 { Pow2Grows(9, n + 1); }
    if n <= 8 { Pow2Grows(n, 8); }
  }

  // ---- agreement ----

  lemma StepKeepsAgreement(t: Tables, step: Step)
    requires FeedAgrees(t)
    ensures FeedAgrees(StepAfter(t, step))
  {
    var now := StepAfter(t, step);
    match step.outcome
    case Hashed(hash, metadata) =>
      var key, record := CanonicalKey(step.id), PHashRecord(step.row, hash, metadata);
      HashWritesKeepAgreement(t, key, record);
      var stored := if HashOutcome(t, key, record) == Unchanged then t
                    else AppendEvent(UpsertHash(t, key, record), HashUpserted(key, record.value));
      assert now.feed == stored.feed && now.hashes == stored.hashes;
      assert forall k :: StoredHash(now, k) == StoredHash(stored, k);
    case FailedIn(phase, error) =>
      assert forall k :: Replayed(now.feed, k) == Replayed(t.feed, k) && StoredHash(now, k) == StoredHash(t, k);
  }

  /** Whatever a drain does, the feed only grows, and it still describes the hash table. */
  lemma {:induction false} DrainKeepsAgreement(t: Tables, trace: seq<Step>)
    requires FeedAgrees(t)
    ensures FeedAgrees(Run(t, trace)) && t.feed <= Run(t, trace).feed
  {
    if trace != [] {
      DrainKeepsAgreement(t, trace[..|trace| - 1]);
      StepKeepsAgreement(Run(t, trace[..|trace| - 1]), trace[|trace| - 1]);
    }
  }
}
