/** What every import run guarantees, derived from the trace its method returns. */
module ImportProperties {
  import opened Wrappers
  import opened SortedIds
  import opened MediaTables
  import opened ImportSpec
  import opened MediaImports

  // ---- batching refines the import of one row at a time ----

  /**
   One row per transaction: before each step, the first row after the cursor
   that is missing from the master table as it stands then.
   */
  ghost predicate OneRowAtATime(legacy: map<VideoId, LegacyRow>, t: Tables, trace: seq<Step>) {
    forall k :: 0 <= k < |trace| ==> IsNextRow(legacy, Run(t, trace[..k]), LastId(trace[..k]), trace[k])
  }

  ghost predicate IsNextRow(legacy: map<VideoId, LegacyRow>, now: Tables, after: Option<VideoId>, step: Step) {
    && FirstRows(Sorted(MissingAfter(legacy, now, after)), 1) == [step.id]
    && step.id in legacy && step.row == legacy[step.id]
  }

  lemma ScansPrefix(legacy: map<VideoId, LegacyRow>, t: Tables, trace: seq<Step>, k: nat)
    requires Scans(legacy, t, trace) && k <= |trace|
    ensures Scans(legacy, t, trace[..k])
  {}

  /** The import is a run over the rows missing at its start, if and only if it is one row at a time. */
  lemma {:induction false} ScanIsOneRowAtATime(legacy: map<VideoId, LegacyRow>, t: Tables, trace: seq<Step>)
    ensures Scans(legacy, t, trace) <==> OneRowAtATime(legacy, t, trace)
  {
    if Scans(legacy, t, trace) {
      forall k | 0 <= k < |trace| ensures IsNextRow(legacy, Run(t, trace[..k]), LastId(trace[..k]), trace[k]) {
        ScansPrefix(legacy, t, trace, k);
        RestOfScan(legacy, t, trace[..k]);
      }
    }
    if OneRowAtATime(legacy, t, trace) {
      OneRowAtATimeScans(legacy, t, trace);
    }
  }

  lemma NextRowExtendsScan(legacy: map<VideoId, LegacyRow>, t: Tables, before: seq<Step>, step: Step)
    requires Scans(legacy, t, before) && IsNextRow(legacy, Run(t, before), LastId(before), step)
    ensures Scans(legacy, t, before + [step])
  {
    hide Run, Sorted;
    RestOfScan(legacy, t, before);
    var rest := Sorted(Missing(legacy, t))[|before|..];
    assert rest != [] && rest[0] == FirstRows(rest, 1)[0] == step.id;
  }

  lemma {:induction false} OneRowAtATimeScans(legacy: map<VideoId, LegacyRow>, t: Tables, trace: seq<Step>)
    requires OneRowAtATime(legacy, t, trace)
    ensures Scans(legacy, t, trace)
  {
    hide Run, Sorted, IsNextRow;
    if trace != [] {
      var n := |trace| - 1;
      var before := trace[..n];
      forall k | 0 <= k < n ensures IsNextRow(legacy, Run(t, before[..k]), LastId(before[..k]), before[k]) {
        assert before[..k] == trace[..k];
      }
      OneRowAtATimeScans(legacy, t, before);
      NextRowExtendsScan(legacy, t, before, trace[n]);
      assert before + [trace[n]] == trace;
    }
  }

  /** A run can go no further exactly when it has visited every row missing at the start. */
  lemma {:induction false} NothingLeftIffAllVisited(legacy: map<VideoId, LegacyRow>, t: Tables, trace: seq<Step>)
    requires Scans(legacy, t, trace)
    ensures MissingAfter(legacy, Run(t, trace), LastId(trace)) == {} <==> |trace| == |Missing(legacy, t)|
  {
    RestOfScan(legacy, t, trace);
    var rest := MissingAfter(legacy, Run(t, trace), LastId(trace));
    assert |rest| == |Missing(legacy, t)| - |trace|;
  }

  function Ids(trace: seq<Step>): seq<VideoId> {
    seq(|trace|, k requires 0 <= k < |trace| => trace[k].id)
  }

  /** The rows of the trace are rows of the legacy table, in id order, that were not in the master table. */
  ghost predicate AreMissing(legacy: map<VideoId, LegacyRow>, t: Tables, trace: seq<Step>) {
    && (forall j, k :: 0 <= j < k < |trace| ==> trace[j].id < trace[k].id)
    && (forall k :: 0 <= k < |trace| ==>
          && trace[k].id in legacy && trace[k].id !in t.master
          && trace[k].row == legacy[trace[k].id])
  }

  /** No row that is missing is passed over. */
  ghost predicate PassesNone(legacy: map<VideoId, LegacyRow>, t: Tables, trace: seq<Step>) {
    forall v, k :: v in legacy && v !in t.master && 0 <= k < |trace| && v < trace[k].id ==> v in Ids(trace)
  }

  /**
   Which rows a run takes, in the keys of the two tables: rows of the one that the other
   lacks, in order, none of them passed over.
   */
  lemma {:induction false} ScanInKeys(legacy: map<VideoId, LegacyRow>, t: Tables, trace: seq<Step>)
    ensures Scans(legacy, t, trace) <==> AreMissing(legacy, t, trace) && PassesNone(legacy, t, trace)
  {
    var missing, ids := Missing(legacy, t), Ids(trace);
    FirstRowsAreThePage(ids, missing, |trace|);
    ScanIsPage(legacy, t, trace);
    hide Sorted, FirstRows, Scans;
    forall k | 0 <= k < |trace| ensures trace[k].id in ids { assert ids[k] == trace[k].id; }
    if Scans(legacy, t, trace) {
      assert forall k :: 0 <= k < |trace| ==> ids[k] == trace[k].id;
      assert forall k :: 0 <= k < |trace| ==> ids[k] in missing;
    }
    if AreMissing(legacy, t, trace) && PassesNone(legacy, t, trace) {
      assert IsPage(ids, missing, |trace|) by { MissingArePage(legacy, t, trace); }
    }
  }

  lemma MissingArePage(legacy: map<VideoId, LegacyRow>, t: Tables, trace: seq<Step>)
    requires AreMissing(legacy, t, trace) && PassesNone(legacy, t, trace)
    ensures IsPage(Ids(trace), Missing(legacy, t), |trace|)
  {
    var ids := Ids(trace);
    assert forall k :: 0 <= k < |ids| ==> ids[k] == trace[k].id;
    forall x, y | x in Missing(legacy, t) && x !in ids && y in ids ensures y < x {
      var k :| 0 <= k < |ids| && ids[k] == y;
      assert !(x < trace[k].id);
    }
  }

  /** A run has taken as many rows as were missing exactly when it has taken every one of them. */
  lemma {:induction false} CompleteIffNoneLeft(legacy: map<VideoId, LegacyRow>, t: Tables, trace: seq<Step>)
    requires Scans(legacy, t, trace)
    ensures |trace| == |Missing(legacy, t)| <==> forall v :: v in legacy && v !in t.master ==> v in Ids(trace)
  {
    var missing := Missing(legacy, t);
    ScanIsPage(legacy, t, trace);
    SortedIsAscending(missing);
    hide Sorted, Scans, Ids;
    if |trace| < |missing| {
      assert Sorted(missing)[|trace|] in Sorted(missing);
      NotAmongFirst(missing, |trace|);
    } else {
      assert Sorted(missing)[..|trace|] == Sorted(missing);
      forall v | v in legacy && v !in t.master ensures v in Ids(trace) {
        assert v in missing && v in Sorted(missing);
      }
    }
  }

  lemma ScanIsPage(legacy: map<VideoId, LegacyRow>, t: Tables, trace: seq<Step>)
    ensures Scans(legacy, t, trace) <==>
            && Ids(trace) == FirstRows(Sorted(Missing(legacy, t)), |trace|)
            && forall k :: 0 <= k < |trace| ==> trace[k].id in legacy && trace[k].row == legacy[trace[k].id]
    ensures Scans(legacy, t, trace) ==> |trace| <= |Missing(legacy, t)|
                                        && Ids(trace) == Sorted(Missing(legacy, t))[..|trace|]
  {
    hide Sorted;
    var ids, all := Ids(trace), Sorted(Missing(legacy, t));
    if Scans(legacy, t, trace) {
      assert ids == all[..|trace|];
    }
    if ids == FirstRows(all, |trace|) {
      assert |trace| <= |all|;
      forall k | 0 <= k < |trace| ensures trace[k].id == all[k] { assert ids[k] == all[k]; }
    }
  }

  lemma NotAmongFirst(s: set<int>, n: nat)
    requires n < |s|
    ensures Sorted(s)[n] !in Sorted(s)[..n]
  {
    SortedOrder(s);
  }

  // ---- conservation ----

  predicate Imported(step: Step) {
    step.fate.Committed? && CanonicalStorage(step.row).Some?
  }

  /** Nobody else puts the rows of the scan ahead of the cursor into the master table. */
  lemma NextRowIsMissing(legacy: map<VideoId, LegacyRow>, t: Tables, trace: seq<Step>)
    requires Scans(legacy, t, trace) && trace != []
    ensures Scans(legacy, t, trace[..|trace| - 1])
    ensures trace[|trace| - 1].id !in Run(t, trace[..|trace| - 1]).master
  {
    var n := |trace| - 1;
    ScansPrefix(legacy, t, trace, n);
    MasterAfterRun(t, trace[..n]);
    SortedOrder(Missing(legacy, t));
    SortedMember(Missing(legacy, t), n);
    forall k | 0 <= k < n ensures trace[..n][k].id < trace[n].id {}
  }

  /** The effect of one row on the counters and on the length of the feed. */
  lemma StepIsCounted(t: Tables, step: Step)
    requires step.id !in t.master
    ensures var c := StepCounts(t, step);
            && c.importedMedia + c.failures == 1
            && c.hashRows == c.hashEvents
            && |StepAfter(t, step).feed| == |t.feed| + c.importedMedia + c.hashEvents
  {
    hide LegacyMedia, Coalesce, SourcesAfter, LegacyHashKey, LegacyHashRecord, FailureAfter;
    if Imported(step) {
      var media := ImportMedia(t, step.id, step.row, CanonicalStorage(step.row).value);
      assert |media.feed| == |t.feed| + 1;
    }
  }

  /**
   Conservation: every scanned row is imported or failed, and the feed has grown
   by exactly the events that were counted, however many pages were rolled back.
   */
  lemma {:induction false} Conservation(legacy: map<VideoId, LegacyRow>, t: Tables, trace: seq<Step>)
    requires Scans(legacy, t, trace)
    ensures var c := Tally(t, trace);
            && c.importedMedia + c.failures == |trace|
            && c.hashRows == c.hashEvents
            && |Run(t, trace).feed| == |t.feed| + c.importedMedia + c.hashEvents
  {
    if trace != [] {
      var before := trace[..|trace| - 1];
      NextRowIsMissing(legacy, t, trace);
      Conservation(legacy, t, before);
      StepIsCounted(Run(t, before), trace[|trace| - 1]);
    }
  }

  predicate BringsHash(step: Step) {
    step.fate.Committed? && CanonicalStorage(step.row).Some? && HasLegacyHash(step.row)
  }

  function HashesBrought(trace: seq<Step>): nat {
    if trace == [] then 0 else
      HashesBrought(trace[..|trace| - 1]) + if BringsHash(trace[|trace| - 1]) then 1 else 0
  }

  lemma StepKeepsReference(t: Tables, step: Step)
    requires HashesReferenceMaster(t)
    ensures HashesReferenceMaster(StepAfter(t, step))
    ensures step.id !in t.master ==> StepCounts(t, step).hashRows == if BringsHash(step) then 1 else 0
  {
    hide LegacyMedia, Coalesce, LegacyHashRecord, FailureAfter, SourcesAfter;
    var after := StepAfter(t, step);
    forall key | key in after.hashes ensures key.videoId in after.master {
      if key in t.hashes { assert key.videoId in t.master; }
    }
    if step.id !in t.master && BringsHash(step) {
      assert LegacyHashKey(step.id, step.row) !in t.hashes;
    }
  }

  /**
   With the foreign key from hashes to master rows, a row that is new to the
   master table has no hash yet, so every legacy hash that comes with a committed
   row is counted and announced.
   */
  lemma {:induction false} EveryHashIsAnnounced(legacy: map<VideoId, LegacyRow>, t: Tables, trace: seq<Step>)
    requires Scans(legacy, t, trace) && HashesReferenceMaster(t)
    ensures HashesReferenceMaster(Run(t, trace))
    ensures Tally(t, trace).hashRows == HashesBrought(trace)
  {
    if trace != [] {
      var before := trace[..|trace| - 1];
      NextRowIsMissing(legacy, t, trace);
      EveryHashIsAnnounced(legacy, t, before);
      StepKeepsReference(Run(t, before), trace[|trace| - 1]);
    }
  }

  // ---- coverage ----

  function FailurePhase(step: Step): string {
    if step.fate.Committed? then "storage_selection" else "import_error"
  }

  function FailureMessage(step: Step): string {
    if step.fate.Committed? then NO_KEY else step.fate.error
  }

  /** The row was imported as it is, or its failure is on record. */
  ghost predicate Settled(t: Tables, step: Step) {
    var source := SourceKey(step.id, SOURCE_KIND, OfVideo(step.id));
    var failure := FailureKey(JOB_KIND, step.id, FailurePhase(step));
    if Imported(step) then
      && step.id in t.master && t.master[step.id] == LegacyMedia(step.id, CanonicalStorage(step.row).value)
      && MediaVisibilityChanged(step.id, LegacyMedia(step.id, CanonicalStorage(step.row).value)) in t.feed
      && source in t.sources && t.sources[source] == Some(step.row)
      && (HasLegacyHash(step.row) ==>
            && LegacyHashKey(step.id, step.row) in t.hashes
            && t.hashes[LegacyHashKey(step.id, step.row)] == LegacyHashRecord(step.row))
    else
      && step.id !in t.master
      && failure in t.failures && t.failures[failure].lastError == FailureMessage(step)
  }

  lemma StepSettles(t: Tables, step: Step)
    requires step.id !in t.master
    ensures Settled(StepAfter(t, step), step)
  {}

  /** What belongs to one video is the same in both tables, and the feed has at most grown. */
  ghost predicate SameFor(t: Tables, t': Tables, id: VideoId) {
    && (id in t.master <==> id in t'.master) && (id in t.master ==> t.master[id] == t'.master[id])
    && (forall key :: key in t.sources && key.videoId == id ==> key in t'.sources && t'.sources[key] == t.sources[key])
    && (forall key :: key in t.hashes && key.videoId == id ==> key in t'.hashes && t'.hashes[key] == t.hashes[key])
    && (forall key: FailureKey ::
          key in t.failures && key.item == id ==> key in t'.failures && t'.failures[key] == t.failures[key])
    && t.feed <= t'.feed
  }

  lemma SameForTwice(t: Tables, t': Tables, t'': Tables, id: VideoId)
    requires SameFor(t, t', id) && SameFor(t', t'', id)
    ensures SameFor(t, t'', id)
  {}

  lemma MediaLeavesAlone(t: Tables, other: VideoId, row: LegacyRow, storage: StorageRef, id: VideoId)
    requires other != id
    ensures SameFor(t, ImportMedia(t, other, row, storage), id)
  {
    hide LegacyMedia, MediaAfter, MediaOutcome;
  }

  lemma HashLeavesAlone(t: Tables, other: VideoId, row: LegacyRow, id: VideoId)
    requires other != id && HasLegacyHash(row)
    ensures SameFor(t, ImportHash(t, other, row), id)
  {
    hide LegacyHashRecord, HashOutcome;
  }

  lemma FailureLeavesAlone(t: Tables, other: VideoId, phase: string, error: string, id: VideoId)
    requires other != id
    ensures SameFor(t, RecordFailure(t, other, phase, error), id)
  {
    hide FailureAfter;
  }

  lemma OtherStepsLeaveAlone(t: Tables, other: Step, id: VideoId)
    requires other.id != id
    ensures SameFor(t, StepAfter(t, other), id)
  {
    hide ImportMedia, ImportHash, RecordFailure, SameFor;
    FailureLeavesAlone(t, other.id, FailurePhase(other), FailureMessage(other), id);
    if Imported(other) {
      var media := ImportMedia(t, other.id, other.row, CanonicalStorage(other.row).value);
      MediaLeavesAlone(t, other.id, other.row, CanonicalStorage(other.row).value, id);
      if HasLegacyHash(other.row) {
        HashLeavesAlone(media, other.id, other.row, id);
        SameForTwice(t, media, ImportHash(media, other.id, other.row), id);
      }
    }
  }

  lemma OtherStepsKeepSettled(t: Tables, step: Step, other: Step)
    requires Settled(t, step) && other.id != step.id
    ensures Settled(StepAfter(t, other), step)
  {
    hide StepAfter, LegacyMedia, LegacyHashRecord;
    OtherStepsLeaveAlone(t, other, step.id);
  }

  /** At the end of any run every visited row is settled. */
  lemma {:induction false} VisitedRowsAreSettled(legacy: map<VideoId, LegacyRow>, t: Tables, trace: seq<Step>, k: nat)
    requires Scans(legacy, t, trace) && k < |trace|
    ensures Settled(Run(t, trace), trace[k])
  {
    var n := |trace| - 1;
    var before := trace[..n];
    NextRowIsMissing(legacy, t, trace);
    if k == n {
      StepSettles(Run(t, before), trace[n]);
    } else {
      VisitedRowsAreSettled(legacy, t, before, k);
      SortedOrder(Missing(legacy, t));
      OtherStepsKeepSettled(Run(t, before), trace[k], trace[n]);
    }
  }

  function RowOf(t: Tables, key: FailureKey): Option<Failure> {
    if key in t.failures then Some(t.failures[key]) else None
  }

  /** What a recorded failure is: a known one with its new error, or a first one that nothing retries. */
  function RecordedAs(t: Tables, key: FailureKey, error: string): Failure {
    match RowOf(t, key)
    case Some(before) => Failure(error, before.retryCount, before.nextRetryAt)
    case None => Failure(error, 0, None)
  }

  /** The step leaves a failure under this key: it hit a SQL error, or the row has no copy to serve. */
  predicate Records(step: Step, key: FailureKey) {
    if step.fate.SqlFailure? then key == FailureKey("legacy_video_index_import", step.id, "import_error")
    else
      && step.row.storjKey.None? && step.row.hetznerKey.None?
      && key == FailureKey("legacy_video_index_import", step.id, "storage_selection")
  }

  lemma OneStepRecords(t: Tables, step: Step, key: FailureKey)
    ensures RowOf(StepAfter(t, step), key) ==
            if Records(step, key) then Some(RecordedAs(t, key, FailureMessage(step))) else RowOf(t, key)
    ensures Records(step, key) ==> step.id == key.item
  {
    hide LegacyMedia, LegacyHashRecord, MediaAfter, SourcesAfter, LegacyHashKey;
  }

  lemma ScanAscends(legacy: map<VideoId, LegacyRow>, t: Tables, trace: seq<Step>)
    requires Scans(legacy, t, trace)
    ensures forall j, k :: 0 <= j < k < |trace| ==> trace[j].id < trace[k].id
  {
    SortedOrder(Missing(legacy, t));
  }

  /**
   The failure table after any run: the row of a video and phase is recorded by the step
   of that video, if it failed in that phase, and is as before else.
   */
  lemma {:induction false} FailuresAfterRun(legacy: map<VideoId, LegacyRow>, t: Tables, trace: seq<Step>,
                                            key: FailureKey)
    requires Scans(legacy, t, trace)
    ensures (forall k :: 0 <= k < |trace| ==> !Records(trace[k], key)) ==> RowOf(Run(t, trace), key) == RowOf(t, key)
    ensures forall k :: 0 <= k < |trace| && Records(trace[k], key) ==>
              RowOf(Run(t, trace), key) == Some(RecordedAs(t, key, FailureMessage(trace[k])))
  {
    if trace != [] {
      var n := |trace| - 1;
      var before, last := trace[..n], trace[n];
      ScansPrefix(legacy, t, trace, n);
      FailuresAfterRun(legacy, t, before, key);
      assert before + [last] == trace;
      RunExtends(t, before, last);
      ScanAscends(legacy, t, trace);
      hide *;
      OneStepRecords(Run(t, before), last, key);
      forall k | 0 <= k < n ensures Records(trace[k], key) ==> Records(before[k], key) && !Records(last, key) {
        OneStepRecords(t, trace[k], key);
      }
      RecordedTwice(Run(t, before), t, key, FailureMessage(last));
    }
  }

  lemma RecordedTwice(t: Tables, t': Tables, key: FailureKey, error: string)
    ensures RowOf(t, key) == RowOf(t', key) ==> RecordedAs(t, key, error) == RecordedAs(t', key, error)
  {}

  // ---- in the columns of the legacy table ----

  /** The master row of a legacy row with a Storj key, or with a Hetzner key only. */
  function ServedRow(id: VideoId, row: LegacyRow): MediaRow
    requires row.storjKey.Some? || row.hetznerKey.Some?
  {
    MediaRow(
      match row.storjKey
      case Some(key) => map[StorageProvider := Text("storj"), Bucket := Text("yral-sfw"), ObjectKey := Text(key)]
      case None => map[StorageProvider := Text("hetzner"), ObjectKey := Text(row.hetznerKey.value)],
      "legacy_video_index", Some(OfVideo(id)), "servable", "legacy_video_index_import")
  }

  lemma ServedRowIsImported(id: VideoId, row: LegacyRow)
    ensures CanonicalStorage(row).Some? <==> row.storjKey.Some? || row.hetznerKey.Some?
    ensures CanonicalStorage(row).Some? ==> LegacyMedia(id, CanonicalStorage(row).value) == ServedRow(id, row)
  {}

  /**
   What a committed row leaves in the master, source, feed and failure tables: the
   Storj copy is served if there is one, else the Hetzner copy; with neither key the
   row is not imported, and that is on record.
   */
  lemma CommittedRowIsServed(legacy: map<VideoId, LegacyRow>, t: Tables, trace: seq<Step>, k: nat)
    requires Scans(legacy, t, trace) && k < |trace| && trace[k].fate.Committed?
    ensures var (id, row, now) := (trace[k].id, trace[k].row, Run(t, trace));
            if row.storjKey.Some? || row.hetznerKey.Some? then
              && id in now.master && now.master[id] == ServedRow(id, row)
              && MediaVisibilityChanged(id, ServedRow(id, row)) in now.feed
              && SourceKey(id, "legacy_video_index", OfVideo(id)) in now.sources
              && now.sources[SourceKey(id, "legacy_video_index", OfVideo(id))] == Some(row)
            else
              var key := FailureKey("legacy_video_index_import", id, "storage_selection");
              && id !in now.master && key in now.failures
              && now.failures[key].lastError == "legacy video_index row has neither storj_key nor hetzner_key"
  {
    VisitedRowsAreSettled(legacy, t, trace, k);
    ServedRowIsImported(trace[k].id, trace[k].row);
    hide Scans, Run, LegacyMedia, ServedRow, CanonicalStorage, LegacyHashKey, LegacyHashRecord;
  }

  /** What a row that hit a SQL error leaves: nothing but that error. */
  lemma FailedRowIsOnRecord(legacy: map<VideoId, LegacyRow>, t: Tables, trace: seq<Step>, k: nat)
    requires Scans(legacy, t, trace) && k < |trace| && trace[k].fate.SqlFailure?
    ensures var (id, now) := (trace[k].id, Run(t, trace));
            var key := FailureKey("legacy_video_index_import", id, "import_error");
            id !in now.master && key in now.failures && now.failures[key].lastError == trace[k].fate.error
  {
    VisitedRowsAreSettled(legacy, t, trace, k);
  }

  /** The key of a complete legacy hash. */
  function ServedHashKey(id: VideoId, row: LegacyRow): HashKey
    requires row.phash.Some? && row.phashKind.Some? && row.phashVersion.Some?
  {
    HashKey(id, row.phashKind.value, row.phashVersion.value, "legacy_video_index_object_v1")
  }

  /**
   A committed row with a storage key and all three hash columns leaves its hash,
   said to be computed from the Hetzner copy if there is one, else from the Storj copy.
   */
  lemma CommittedHashIsStored(legacy: map<VideoId, LegacyRow>, t: Tables, trace: seq<Step>, k: nat)
    requires Scans(legacy, t, trace) && k < |trace| && trace[k].fate.Committed?
    requires trace[k].row.storjKey.Some? || trace[k].row.hetznerKey.Some?
    requires trace[k].row.phash.Some? && trace[k].row.phashKind.Some? && trace[k].row.phashVersion.Some?
    ensures var (row, now, key) := (trace[k].row, Run(t, trace), ServedHashKey(trace[k].id, trace[k].row));
            && key in now.hashes
            && var record := now.hashes[key];
               && record.value == row.phash.value && record.bitLength == AsI32(|row.phash.value|)
               && record.numFrames == 0 && record.hashSize == 0 && record.metadata == Some("legacy_video_index")
               && record.provider == Some(if row.hetznerKey.Some? then "hetzner" else "storj")
               && record.bucket == (if row.hetznerKey.Some? then None else Some("yral-sfw"))
               && record.objectKey == (if row.hetznerKey.Some? then row.hetznerKey else row.storjKey)
  {
    VisitedRowsAreSettled(legacy, t, trace, k);
  }

  /** The row has a storage key and a complete hash, and this is the key it is stored under. */
  predicate Brings(step: Step, key: HashKey) {
    && step.fate.Committed?
    && (step.row.storjKey.Some? || step.row.hetznerKey.Some?)
    && step.row.phash.Some? && step.row.phashKind.Some? && step.row.phashVersion.Some?
    && key == ServedHashKey(step.id, step.row)
  }

  /** And an import stores no other hashes. */
  lemma {:induction false} OnlyLegacyHashesAreStored(t: Tables, trace: seq<Step>, key: HashKey)
    ensures key in Run(t, trace).hashes <==> key in t.hashes || exists k :: 0 <= k < |trace| && Brings(trace[k], key)
  {
    if trace != [] {
      var n := |trace| - 1;
      var before := trace[..n];
      OnlyLegacyHashesAreStored(t, before, key);
      OneStepStores(Run(t, before), trace[n], key);
      hide StepAfter, Brings;
      assert forall k :: 0 <= k < n ==> trace[k] == before[k];
      if k :| 0 <= k < |trace| && Brings(trace[k], key) {
        assert k < n ==> Brings(before[k], key);
      }
    }
  }

  lemma OneStepStores(t: Tables, step: Step, key: HashKey)
    ensures key in StepAfter(t, step).hashes <==> key in t.hashes || Brings(step, key)
  {
    hide LegacyMedia, LegacyHashRecord, MediaAfter, SourcesAfter, FailureAfter;
  }

  /** A second run scans exactly the rows that failed in a complete first run. */
  lemma SecondRunScansTheFailures(legacy: map<VideoId, LegacyRow>, t: Tables, trace: seq<Step>)
    requires Scans(legacy, t, trace) && |trace| == |Missing(legacy, t)|
    ensures forall v :: v in Missing(legacy, Run(t, trace)) <==>
              exists k :: 0 <= k < |trace| && trace[k].id == v && !Imported(trace[k])
  {
    var missing, now := Missing(legacy, t), Run(t, trace);
    MasterAfterRun(t, trace);
    SortedIsAscending(missing);
    forall v
      ensures v in Missing(legacy, now) <==> exists k :: 0 <= k < |trace| && trace[k].id == v && !Imported(trace[k])
    {
      if v in Missing(legacy, now) {
        assert v in Sorted(missing);
        var k :| 0 <= k < |trace| && Sorted(missing)[k] == v;
        VisitedRowsAreSettled(legacy, t, trace, k);
        assert trace[k].id == v && !Imported(trace[k]);
      }
      if k :| 0 <= k < |trace| && trace[k].id == v && !Imported(trace[k]) {
        VisitedRowsAreSettled(legacy, t, trace, k);
      }
    }
  }

  // ---- the feed still describes the hash table ----

  lemma StepKeepsAgreement(t: Tables, step: Step)
    requires FeedAgrees(t)
    ensures FeedAgrees(StepAfter(t, step))
  {
    var failed := RecordFailure(t, step.id, FailurePhase(step), FailureMessage(step));
    assert forall k :: Replayed(failed.feed, k) == Replayed(t.feed, k) && StoredHash(failed, k) == StoredHash(t, k);
    if Imported(step) {
      var storage := CanonicalStorage(step.row).value;
      var input := LegacyMedia(step.id, storage);
      var media := ImportMedia(t, step.id, step.row, storage);
      if MediaOutcome(t, step.id, input) == Unchanged {
        assert forall k :: Replayed(media.feed, k) == Replayed(t.feed, k) && StoredHash(media, k) == StoredHash(t, k);
      } else {
        VisibilityEventKeepsAgreement(t, media, MediaVisibilityChanged(step.id, input));
      }
      if HasLegacyHash(step.row) {
        HashWritesKeepAgreement(media, LegacyHashKey(step.id, step.row), LegacyHashRecord(step.row));
      }
    }
  }

  lemma {:induction false} ImportKeepsAgreement(t: Tables, trace: seq<Step>)
    requires FeedAgrees(t)
    ensures FeedAgrees(Run(t, trace))
  {
    if trace != [] {
      ImportKeepsAgreement(t, trace[..|trace| - 1]);
      StepKeepsAgreement(Run(t, trace[..|trace| - 1]), trace[|trace| - 1]);
    }
  }

  // ---- the circuit breaker ----

  /** n SQL failures in a row, up to and including step `end - 1`. */
  ghost predicate FailuresEndAt(trace: seq<Step>, end: nat, n: nat) {
    && n <= end <= |trace|
    && forall k :: end - n <= k < end ==> trace[k].fate.SqlFailure?
  }

  lemma {:induction false} TrailingCountsTheLastFailures(trace: seq<Step>, n: nat)
    ensures n <= TrailingFailures(trace) <==> FailuresEndAt(trace, |trace|, n)
  {
    if n > 0 && trace != [] && trace[|trace| - 1].fate.SqlFailure? {
      var before := trace[..|trace| - 1];
      TrailingCountsTheLastFailures(before, n - 1);
      if FailuresEndAt(before, |before|, n - 1) {
        assert forall k :: |trace| - n <= k < |trace| - 1 ==> before[k] == trace[k];
      }
      if FailuresEndAt(trace, |trace|, n) {
        assert forall k :: |before| - (n - 1) <= k < |before| ==> before[k] == trace[k];
      }
    }
  }

  /**
   The breaker is silent exactly while no fifty consecutive rows, across page
   boundaries, have failed with SQL errors.
   */
  lemma BreakerIsExact(trace: seq<Step>)
    ensures NeverTripped(trace) <==>
            forall end :: 0 <= end <= |trace| ==> !FailuresEndAt(trace, end, 50)
  {
    forall end | 0 <= end <= |trace|
      ensures TrailingFailures(trace[..end]) < MAX_CONSECUTIVE_IMPORT_FAILURES <==>
              !FailuresEndAt(trace, end, MAX_CONSECUTIVE_IMPORT_FAILURES)
    {
      TrailingCountsTheLastFailures(trace[..end], MAX_CONSECUTIVE_IMPORT_FAILURES);
      assert FailuresEndAt(trace[..end], end, MAX_CONSECUTIVE_IMPORT_FAILURES) <==>
             FailuresEndAt(trace, end, MAX_CONSECUTIVE_IMPORT_FAILURES) by
      {
        assert forall k :: 0 <= k < end ==> trace[..end][k] == trace[k];
      }
    }
  }
}
