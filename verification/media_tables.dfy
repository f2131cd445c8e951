/**
 The tables of the media index, and what one upsert means for them.

 A nullable column is absent from `optional` when it is NULL, so COALESCE over
 all nullable columns at once is the merge of two maps.
 */
module MediaTables {
  import opened Wrappers
  import opened SortedIds

  datatype Column =
    | PublisherUserId | PostId | NsfwState | StorageProvider | Bucket | ObjectKey
    | CanonicalUrl | ThumbnailKey | DurationMs | Width | Height | Fps | Container
    | VideoCodec | AudioCodec | MoovAtomFront | CanonicalEncodingVersion

  datatype Cell = Text(text: string) | Number(number: int) | Double(double: real) | Flag(flag: bool)

  /** A source_ref is the id of a video or some other text. */
  datatype SourceRef = OfVideo(videoId: VideoId) | Other(text: string)

  /** A row of all_servable_videos_on_yral, and equally the columns an upsert supplies. */
  datatype MediaRow = MediaRow(
    optional: map<Column, Cell>,
    sourceKind: string,
    sourceRef: Option<SourceRef>,
    servableStatus: string,
    discoveredFrom: string)

  /** A row of the legacy table video_index. */
  datatype LegacyRow = LegacyRow(
    storjKey: Option<string>,
    hetznerKey: Option<string>,
    phash: Option<string>,
    phashKind: Option<string>,
    phashVersion: Option<string>)

  datatype SourceKey = SourceKey(videoId: VideoId, kind: string, ref: SourceRef)

  datatype HashKey = HashKey(videoId: VideoId, kind: string, version: string, inputMediaVersion: string)

  datatype HashRecord = HashRecord(
    value: string,
    bitLength: int,
    numFrames: int,
    hashSize: int,
    provider: Option<string>,
    bucket: Option<string>,
    objectKey: Option<string>,
    metadata: Option<string>)

  /** A feed event without its cursor; a stored row may have a kind that the code does not know. */
  datatype FeedEvent =
    | MediaVisibilityChanged(videoId: VideoId, media: MediaRow)
    | HashUpserted(key: HashKey, hashValue: string)
    | OtherKind(kind: string)

  datatype FailureKey = FailureKey(jobKind: string, item: VideoId, phase: string)

  /** A row of media_job_failures; times are minutes. */
  datatype Failure = Failure(lastError: string, retryCount: nat, nextRetryAt: Option<int>)

  /** The i-th event of `feed` has the i-th cursor kept beside it by `Connection`. */
  datatype Tables = Tables(
    master: map<VideoId, MediaRow>,
    sources: map<SourceKey, Option<LegacyRow>>,
    hashes: map<HashKey, HashRecord>,
    feed: seq<FeedEvent>,
    failures: map<FailureKey, Failure>)

  /** The status column of media_job_runs. */
  datatype JobStatus = Running | Succeeded | SucceededWithFailures | Cancelled | Failed

  datatype UpsertOutcome = Inserted | Changed | Unchanged

  datatype ServableUpsert = ServableUpsert(media: UpsertOutcome, sourceInserted: bool)

  /** `len() as i32`. */
  function AsI32(n: nat): int {
    (n + 0x8000_0000) % 0x1_0000_0000 - 0x8000_0000
  }

  /** UPDATE ... SET col = COALESCE($n, col), source_ref = COALESCE(source_ref, $5), ... */
  function Coalesce(existing: MediaRow, input: MediaRow): MediaRow {
    MediaRow(
      existing.optional + input.optional,
      input.sourceKind,
      if existing.sourceRef.Some? then existing.sourceRef else input.sourceRef,
      input.servableStatus,
      input.discoveredFrom)
  }

  predicate OptionalMatches(existing: MediaRow, input: MediaRow) {
    forall c :: c in input.optional ==> c in existing.optional && existing.optional[c] == input.optional[c]
  }

  /** The check that lets an upsert skip its UPDATE. */
  predicate MaterialMatches(existing: MediaRow, input: MediaRow) {
    && OptionalMatches(existing, input)
    && existing.sourceKind == input.sourceKind
    && (existing.sourceRef.Some? || input.sourceRef.None?)
    && existing.servableStatus == input.servableStatus
    && existing.discoveredFrom == input.discoveredFrom
  }

  /** The check skips an UPDATE exactly when the UPDATE would change no material column. */
  lemma {:induction false} MatchesIffUpdateIsIdle(existing: MediaRow, input: MediaRow)
    ensures MaterialMatches(existing, input) <==> Coalesce(existing, input) == existing
  {
    var merged := existing.optional + input.optional;
    if OptionalMatches(existing, input) {
      assert merged == existing.optional;
    }
    if merged == existing.optional {
      forall c | c in input.optional ensures c in existing.optional && existing.optional[c] == input.optional[c] {
        assert c in merged && merged[c] == input.optional[c];
      }
    }
  }

  /** What a servable-video upsert leaves in the master table. */
  function MediaAfter(t: Tables, id: VideoId, input: MediaRow): MediaRow {
    if id in t.master then Coalesce(t.master[id], input) else input
  }

  function MediaOutcome(t: Tables, id: VideoId, input: MediaRow): UpsertOutcome {
    if id !in t.master then Inserted
    else if MediaAfter(t, id, input) == t.master[id] then Unchanged
    else Changed
  }

  /** Sources only grow: a known (video, kind, ref) keeps its payload. */
  function SourcesAfter(t: Tables, id: VideoId, input: MediaRow): map<SourceKey, Option<LegacyRow>> {
    if input.sourceRef.None? then t.sources else
      var key := SourceKey(id, input.sourceKind, input.sourceRef.value);
      if key in t.sources then t.sources else t.sources[key := None]
  }

  predicate SourceIsNew(t: Tables, id: VideoId, input: MediaRow) {
    input.sourceRef.Some? && SourceKey(id, input.sourceKind, input.sourceRef.value) !in t.sources
  }

  function UpsertMedia(t: Tables, id: VideoId, input: MediaRow): Tables {
    t.(master := t.master[id := MediaAfter(t, id, input)], sources := SourcesAfter(t, id, input))
  }

  function HashOutcome(t: Tables, key: HashKey, record: HashRecord): UpsertOutcome {
    if key !in t.hashes then Inserted
    else if t.hashes[key] == record then Unchanged
    else Changed
  }

  /** A hash upsert always leaves its record in the table. */
  function UpsertHash(t: Tables, key: HashKey, record: HashRecord): Tables {
    t.(hashes := t.hashes[key := record])
  }

  function AppendEvent(t: Tables, event: FeedEvent): Tables {
    t.(feed := t.feed + [event])
  }

  function FailuresOf(t: Tables, jobKind: string, item: VideoId): set<FailureKey> {
    set key | key in t.failures && key.jobKind == jobKind && key.item == item
  }

  function WithoutFailures(t: Tables, jobKind: string, item: VideoId): Tables {
    t.(failures := t.failures - FailuresOf(t, jobKind, item))
  }

  /** The cast wraps around; below 2^31 it keeps the length. */
  lemma AsI32Wraps(n: nat)
    ensures -0x8000_0000 <= AsI32(n) < 0x8000_0000 && (n - AsI32(n)) % 0x1_0000_0000 == 0
    ensures n < 0x8000_0000 ==> AsI32(n) == n
  {
    var m, w := n + 0x8000_0000, 0x1_0000_0000;
    assert m == (m / w) * w + m % w;
    assert n - AsI32(n) == (m / w) * w;
  }

  /** What the outcomes of the upserts tell about the tables before and after. */
  lemma OutcomesTell(t: Tables, id: VideoId, input: MediaRow, key: HashKey, record: HashRecord)
    ensures MediaOutcome(t, id, input) == Inserted <==> id !in t.master
    ensures SourceIsNew(t, id, input) <==> UpsertMedia(t, id, input).sources != t.sources
    ensures HashOutcome(t, key, record) == Inserted <==> key !in t.hashes
    ensures HashOutcome(t, key, record) == Unchanged <==> UpsertHash(t, key, record) == t
  {
    var after := UpsertMedia(t, id, input);
    if SourceIsNew(t, id, input) {
      assert SourceKey(id, input.sourceKind, input.sourceRef.value) in after.sources;
    }
    var hashed := UpsertHash(t, key, record);
    assert key in hashed.hashes && hashed.hashes[key] == record;
    if key in t.hashes && t.hashes[key] == record {
      assert hashed.hashes == t.hashes;
    }
  }

  // ---- the feed describes the hash table ----

  /** The hash a consumer of the feed holds for `key`: that of the last event for it. */
  function Replayed(feed: seq<FeedEvent>, key: HashKey): Option<string> {
    if feed == [] then None else
      var last := feed[|feed| - 1];
      if last.HashUpserted? && last.key == key then Some(last.hashValue)
      else Replayed(feed[..|feed| - 1], key)
  }

  function StoredHash(t: Tables, key: HashKey): Option<string> {
    if key in t.hashes then Some(t.hashes[key].value) else None
  }

  /** Replaying the feed rebuilds the hash index. */
  ghost predicate FeedAgrees(t: Tables) {
    forall key :: Replayed(t.feed, key) == StoredHash(t, key)
  }

  /** servable_video_hashes.video_id REFERENCES all_servable_videos_on_yral. */
  ghost predicate HashesReferenceMaster(t: Tables) {
    forall key :: key in t.hashes ==> key.videoId in t.master
  }

  lemma ReplayedAppend(feed: seq<FeedEvent>, event: FeedEvent, key: HashKey)
    ensures Replayed(feed + [event], key) ==
            if event.HashUpserted? && event.key == key then Some(event.hashValue) else Replayed(feed, key)
  {
    assert (feed + [event])[..|feed|] == feed;
  }

  /** A hash upsert followed by its event keeps feed and table in agreement; an idle upsert needs no event. */
  lemma {:induction false} HashWritesKeepAgreement(t: Tables, key: HashKey, record: HashRecord)
    requires FeedAgrees(t)
    ensures var t' := UpsertHash(t, key, record);
            if HashOutcome(t, key, record) == Unchanged then t' == t
            else FeedAgrees(AppendEvent(t', HashUpserted(key, record.value)))
  {
    var t' := UpsertHash(t, key, record);
    if HashOutcome(t, key, record) == Unchanged {
      assert t'.hashes == t.hashes;
    } else {
      var event := HashUpserted(key, record.value);
      forall k ensures Replayed(t.feed + [event], k) == StoredHash(AppendEvent(t', event), k) {
        ReplayedAppend(t.feed, event, k);
        assert Replayed(t.feed, k) == StoredHash(t, k);
      }
    }
  }

  lemma {:induction false} VisibilityEventKeepsAgreement(t: Tables, t': Tables, event: FeedEvent)
    requires FeedAgrees(t) && event.MediaVisibilityChanged?
    requires t'.hashes == t.hashes && t'.feed == t.feed + [event]
    ensures FeedAgrees(t')
  {
    forall k ensures Replayed(t'.feed, k) == StoredHash(t', k) {
      ReplayedAppend(t.feed, event, k);
      assert Replayed(t.feed, k) == StoredHash(t, k);
    }
  }
}
