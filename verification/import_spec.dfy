/**
 What importing legacy rows means: one row at a time, each in its own
 transaction.  `MediaImports` proves its batches, rollbacks and retries equal to
 such a run, and `ImportProperties` derives what a run guarantees.
 */
module ImportSpec {
  import opened Wrappers
  import opened SortedIds
  import opened MediaTables

  const JOB_KIND := "legacy_video_index_import"
  const SOURCE_KIND := "legacy_video_index"
  const INPUT_MEDIA_VERSION := "legacy_video_index_object_v1"
  const STORJ_SFW_BUCKET := "yral-sfw"
  const NO_KEY := "legacy video_index row has neither storj_key nor hetzner_key"
  const MAX_CONSECUTIVE_IMPORT_FAILURES: nat := 50

  datatype StorageRef = StorageRef(provider: string, bucket: Option<string>, objectKey: string)

  datatype RowCounts = RowCounts(importedMedia: nat, hashRows: nat, hashEvents: nat, failures: nat) {
    function Add(other: RowCounts): RowCounts {
      RowCounts(importedMedia + other.importedMedia, hashRows + other.hashRows,
                hashEvents + other.hashEvents, failures + other.failures)
    }
  }

  const NOTHING := RowCounts(0, 0, 0, 0)

  // ---- one row ----

  function StorjRef(row: LegacyRow): Option<StorageRef> {
    match row.storjKey
    case Some(key) => Some(StorageRef("storj", Some(STORJ_SFW_BUCKET), key))
    case None => None
  }

  function HetznerRef(row: LegacyRow): Option<StorageRef> {
    match row.hetznerKey
    case Some(key) => Some(StorageRef("hetzner", None, key))
    case None => None
  }

  /** The copy to serve: Storj if there is one. */
  function CanonicalStorage(row: LegacyRow): Option<StorageRef> {
    if row.storjKey.Some? then StorjRef(row) else HetznerRef(row)
  }

  /** The copy a legacy hash was computed from: Hetzner if there is one. */
  function HashProvenance(row: LegacyRow): Option<StorageRef> {
    if row.hetznerKey.Some? then HetznerRef(row) else StorjRef(row)
  }

  function LegacyMedia(id: VideoId, storage: StorageRef): MediaRow {
    MediaRow(
      map[StorageProvider := Text(storage.provider), ObjectKey := Text(storage.objectKey)]
        + (if storage.bucket.Some? then map[Bucket := Text(storage.bucket.value)] else map[]),
      SOURCE_KIND, Some(OfVideo(id)), "servable", JOB_KIND)
  }

  predicate HasLegacyHash(row: LegacyRow) {
    row.phash.Some? && row.phashKind.Some? && row.phashVersion.Some?
  }

  function LegacyHashKey(id: VideoId, row: LegacyRow): HashKey
    requires HasLegacyHash(row)
  {
    HashKey(id, row.phashKind.value, row.phashVersion.value, INPUT_MEDIA_VERSION)
  }

  function LegacyHashRecord(row: LegacyRow): HashRecord
    requires HasLegacyHash(row)
  {
    var from := HashProvenance(row);
    HashRecord(
      row.phash.value, AsI32(|row.phash.value|), 0, 0,
      if from.Some? then Some(from.value.provider) else None,
      if from.Some? then from.value.bucket else None,
      if from.Some? then Some(from.value.objectKey) else None,
      Some(SOURCE_KIND))
  }

  /** INSERT into media_job_failures, or on conflict a new last_error for the same row. */
  function FailureAfter(t: Tables, id: VideoId, phase: string, error: string): Failure {
    var key := FailureKey(JOB_KIND, id, phase);
    if key in t.failures then t.failures[key].(lastError := error) else Failure(error, 0, None)
  }

  function RecordFailure(t: Tables, id: VideoId, phase: string, error: string): Tables {
    t.(failures := t.failures[FailureKey(JOB_KIND, id, phase) := FailureAfter(t, id, phase, error)])
  }

  function ImportMedia(t: Tables, id: VideoId, row: LegacyRow, storage: StorageRef): Tables {
    var input := LegacyMedia(id, storage);
    var upserted := UpsertMedia(t, id, input);
    var source := SourceKey(id, SOURCE_KIND, OfVideo(id));
    var stamped := upserted.(sources := upserted.sources[source := Some(row)]);
    if MediaOutcome(t, id, input) == Unchanged then stamped
    else AppendEvent(stamped, MediaVisibilityChanged(id, input))
  }

  function ImportHash(t: Tables, id: VideoId, row: LegacyRow): Tables
    requires HasLegacyHash(row)
  {
    var key, record := LegacyHashKey(id, row), LegacyHashRecord(row);
    if HashOutcome(t, key, record) == Unchanged then t
    else AppendEvent(UpsertHash(t, key, record), HashUpserted(key, record.value))
  }

  /** What one committed row leaves behind. */
  function ImportRow(t: Tables, id: VideoId, row: LegacyRow): Tables {
    match CanonicalStorage(row)
    case None => RecordFailure(t, id, "storage_selection", NO_KEY)
    case Some(storage) =>
      var media := ImportMedia(t, id, row, storage);
      if HasLegacyHash(row) then ImportHash(media, id, row) else media
  }

  function ImportCounts(t: Tables, id: VideoId, row: LegacyRow): RowCounts {
    match CanonicalStorage(row)
    case None => RowCounts(0, 0, 0, 1)
    case Some(storage) =>
      var imported := if MediaOutcome(t, id, LegacyMedia(id, storage)) == Unchanged then 0 else 1;
      var announced := if HasLegacyHash(row) then AnnouncedHashes(ImportMedia(t, id, row, storage), id, row) else 0;
      RowCounts(imported, announced, announced, 0)
  }

  function AnnouncedHashes(t: Tables, id: VideoId, row: LegacyRow): nat
    requires HasLegacyHash(row)
  {
    if HashOutcome(t, LegacyHashKey(id, row), LegacyHashRecord(row)) == Unchanged then 0 else 1
  }

  // ---- a run ----

  /** A row's transaction either committed, or hit a SQL error that was recorded instead. */
  datatype Fate = Committed | SqlFailure(error: string)

  datatype Step = Step(id: VideoId, row: LegacyRow, fate: Fate)

  function StepAfter(t: Tables, step: Step): Tables {
    match step.fate
    case Committed => ImportRow(t, step.id, step.row)
    case SqlFailure(error) => RecordFailure(t, step.id, "import_error", error)
  }

  function StepCounts(t: Tables, step: Step): RowCounts {
    match step.fate
    case Committed => ImportCounts(t, step.id, step.row)
    case SqlFailure(_) => RowCounts(0, 0, 0, 1)
  }

  function Run(t: Tables, trace: seq<Step>): Tables {
    if trace == [] then t else StepAfter(Run(t, trace[..|trace| - 1]), trace[|trace| - 1])
  }

  function Tally(t: Tables, trace: seq<Step>): RowCounts {
    if trace == [] then NOTHING else
      var before := trace[..|trace| - 1];
      Tally(t, before).Add(StepCounts(Run(t, before), trace[|trace| - 1]))
  }

  /** SQL failures since the last committed row. */
  function TrailingFailures(trace: seq<Step>): nat {
    if trace == [] || trace[|trace| - 1].fate.Committed? then 0
    else 1 + TrailingFailures(trace[..|trace| - 1])
  }

  lemma RunExtends(t: Tables, trace: seq<Step>, step: Step)
    ensures Run(t, trace + [step]) == StepAfter(Run(t, trace), step)
    ensures Tally(t, trace + [step]) == Tally(t, trace).Add(StepCounts(Run(t, trace), step))
    ensures TrailingFailures(trace + [step]) == if step.fate.Committed? then 0 else TrailingFailures(trace) + 1
  {
    assert (trace + [step])[..|trace|] == trace;
  }

  // ---- which rows a run visits ----

  function Missing(legacy: map<VideoId, LegacyRow>, t: Tables): set<VideoId> {
    set v | v in legacy && v !in t.master
  }

  function MissingAfter(legacy: map<VideoId, LegacyRow>, t: Tables, after: Option<VideoId>): set<VideoId> {
    set v | v in legacy && v !in t.master && After(after, v)
  }

  function LastId(trace: seq<Step>): Option<VideoId> {
    if trace == [] then None else Some(trace[|trace| - 1].id)
  }

  /** The trace is an initial part of the scan of the rows missing at the start. */
  ghost predicate Scans(legacy: map<VideoId, LegacyRow>, t: Tables, trace: seq<Step>) {
    && |trace| <= |Missing(legacy, t)|
    && forall k :: 0 <= k < |trace| ==>
         && trace[k].id == Sorted(Missing(legacy, t))[k]
         && trace[k].id in legacy && trace[k].row == legacy[trace[k].id]
  }

  lemma {:induction false} MasterAfterRun(t: Tables, trace: seq<Step>)
    ensures forall v :: v in t.master ==> v in Run(t, trace).master
    ensures forall v :: v in Run(t, trace).master ==> v in t.master || exists k :: 0 <= k < |trace| && trace[k].id == v
  {
    if trace != [] {
      var before, last := trace[..|trace| - 1], trace[|trace| - 1];
      MasterAfterRun(t, before);
      forall v | v in Run(t, trace).master
        ensures v in t.master || exists k :: 0 <= k < |trace| && trace[k].id == v
      {
        if v in Run(t, before).master {
          if v !in t.master {
            var k :| 0 <= k < |before| && before[k].id == v;
            assert trace[k].id == v;
          }
        } else {
          assert v == last.id;
        }
      }
    }
  }

  /** Importing rows behind the cursor does not disturb the scan ahead of it. */
  lemma {:induction false} RestOfScan(legacy: map<VideoId, LegacyRow>, t: Tables, trace: seq<Step>)
    requires Scans(legacy, t, trace)
    ensures Sorted(MissingAfter(legacy, Run(t, trace), LastId(trace))) == Sorted(Missing(legacy, t))[|trace|..]
  {
    var all := Sorted(Missing(legacy, t));
    var n, after := |trace|, LastId(trace);
    MasterAfterRun(t, trace);
    SortedOrder(Missing(legacy, t));
    var rest := MissingAfter(legacy, Run(t, trace), after);
    assert forall k :: 0 <= k < n ==> trace[k].id <= all[n - 1];
    assert forall x :: x in rest <==> x in Missing(legacy, t) && After(after, x);
    ScanResumes(Missing(legacy, t), n, after, rest);
  }
}
