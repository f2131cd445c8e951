/** What a thumbnail backfill run decides to do for each video, given the manifest of earlier runs. */
module BackfillPlan {
  import opened Wrappers
  import opened ManifestLog

  datatype ObjectInfo = ObjectInfo(key: string, lastModified: int)

  datatype PlannedAction =
    | Process(videoKey: string, stagedThumbnailKey: string)
    | SkipRemoteExists(videoKey: string, stagedThumbnailKey: string)
    | SkipManifestDone(videoKey: string, stagedThumbnailKey: string)

  const MP4 := ".mp4"
  const THUMBNAIL := "-thumbnail.png"

  predicate EndsWith(s: string, suffix: string) {
    |suffix| <= |s| && s[|s| - |suffix|..] == suffix
  }

  function StagedThumbnailKey(videoKey: string): Option<string> {
    if EndsWith(videoKey, MP4) then Some(videoKey[..|videoKey| - |MP4|] + THUMBNAIL) else None
  }

  /** Different videos are staged under different keys. */
  lemma StagedKeysAreDistinct(a: string, b: string)
    requires StagedThumbnailKey(a).Some? && StagedThumbnailKey(a) == StagedThumbnailKey(b)
    ensures a == b
  {
    var staged := StagedThumbnailKey(a).value;
    assert staged[..|staged| - |THUMBNAIL|] == a[..|a| - |MP4|];
    assert staged[..|staged| - |THUMBNAIL|] == b[..|b| - |MP4|];
    assert a == a[..|a| - |MP4|] + MP4 && b == b[..|b| - |MP4|] + MP4;
  }

  // ---- the index of the manifest ----

  type Completed = set<(BackendKind, string, string)>

  function FromEntries(entries: seq<ManifestEntry>): Completed {
    set e | e in entries && e.status.Completed? :: (e.backend, e.bucket, e.stagedThumbnailKey)
  }

  predicate ShouldSkipCompleted(manifest: Completed, backend: BackendKind, bucket: string, staged: string) {
    (backend, bucket, staged) in manifest
  }

  datatype Request = Request(
    backend: BackendKind,
    bucket: string,
    remoteStagedKeys: set<string>,
    cutoffBefore: int,
    prefix: Option<string>)

  /** The videos a run considers at all. */
  predicate Considered(req: Request, video: ObjectInfo) {
    && EndsWith(video.key, MP4)
    && video.lastModified <= req.cutoffBefore
    && (req.prefix.Some? ==> req.prefix.value <= video.key)
  }

  function ActionFor(req: Request, manifest: Completed, video: ObjectInfo): PlannedAction
    requires Considered(req, video)
  {
    var staged := StagedThumbnailKey(video.key).value;
    if staged in req.remoteStagedKeys then PlannedAction.SkipRemoteExists(video.key, staged)
    else if ShouldSkipCompleted(manifest, req.backend, req.bucket, staged) then
      PlannedAction.SkipManifestDone(video.key, staged)
    else Process(video.key, staged)
  }

  function Plan(req: Request, manifest: Completed, videos: seq<ObjectInfo>): seq<PlannedAction> {
    if videos == [] then []
    else
      var video := videos[|videos| - 1];
      Plan(req, manifest, videos[..|videos| - 1])
      + (if Considered(req, video) then [ActionFor(req, manifest, video)] else [])
  }

  method BuildRunPlan(req: Request, manifest: Completed, videos: seq<ObjectInfo>) returns (actions: seq<PlannedAction>)
    ensures actions == Plan(req, manifest, videos)
  {
    actions := [];
    var n := 0;
    while n < |videos|
      invariant 0 <= n <= |videos| && actions == Plan(req, manifest, videos[..n])
    {
      var video := videos[n];
      assert videos[..n + 1][..n] == videos[..n];
      n := n + 1;
      if !EndsWith(video.key, MP4) { continue; }
      if video.lastModified > req.cutoffBefore { continue; }
      if req.prefix.Some? {
        if !(req.prefix.value <= video.key) { continue; }
      }
      var stagedKey := StagedThumbnailKey(video.key);
      if stagedKey.None? { continue; }
      if stagedKey.value in req.remoteStagedKeys {
        actions := actions + [PlannedAction.SkipRemoteExists(video.key, stagedKey.value)];
        continue;
      }
      if ShouldSkipCompleted(manifest, req.backend, req.bucket, stagedKey.value) {
        actions := actions + [PlannedAction.SkipManifestDone(video.key, stagedKey.value)];
        continue;
      }
      actions := actions + [Process(video.key, stagedKey.value)];
    }
    assert videos[..n] == videos;
  }

  /** The video is listed, old enough, under the prefix and an .mp4, and its thumbnail is staged under this key. */
  ghost predicate Wanted(req: Request, videos: seq<ObjectInfo>, key: string, staged: string) {
    && 4 <= |key| && key[|key| - 4..] == ".mp4" && staged == key[..|key| - 4] + "-thumbnail.png"
    && exists video :: video in videos && video.key == key && video.lastModified <= req.cutoffBefore
                       && (req.prefix.Some? ==> req.prefix.value <= key)
  }

  /** An earlier run has completed it on this backend and bucket. */
  ghost predicate Logged(req: Request, entries: seq<ManifestEntry>, staged: string) {
    exists e :: e in entries && e.status.Completed? && e.backend == req.backend
                && e.bucket == req.bucket && e.stagedThumbnailKey == staged
  }

  lemma ActionOfOne(req: Request, entries: seq<ManifestEntry>, video: ObjectInfo, action: PlannedAction)
    ensures var staged := action.stagedThumbnailKey;
            Considered(req, video) && action == ActionFor(req, FromEntries(entries), video) <==>
              && Wanted(req, [video], action.videoKey, staged)
              && match action
                 case Process(_, _) => staged !in req.remoteStagedKeys && !Logged(req, entries, staged)
                 case SkipRemoteExists(_, _) => staged in req.remoteStagedKeys
                 case SkipManifestDone(_, _) => staged !in req.remoteStagedKeys && Logged(req, entries, staged)
  {
    assert video in [video];
    DoneIffLogged(entries, req.backend, req.bucket, action.stagedThumbnailKey);
    if 4 <= |video.key| {
      assert video.key[..|video.key| - |MP4|] + THUMBNAIL == video.key[..|video.key| - 4] + "-thumbnail.png";
    }
  }

  lemma NothingWanted(req: Request, key: string, staged: string)
    ensures !Wanted(req, [], key, staged)
  {}

  lemma OneMoreWanted(req: Request, videos: seq<ObjectInfo>, video: ObjectInfo, key: string, staged: string)
    ensures Wanted(req, videos + [video], key, staged)
       <==> Wanted(req, videos, key, staged) || Wanted(req, [video], key, staged)
  {}

  /**
   Every wanted video is skipped when the bucket has its thumbnail, skipped when only
   the manifest has it, and processed when neither does; nothing else is planned.
   */
  lemma {:induction false} PlannedIff(req: Request, entries: seq<ManifestEntry>, videos: seq<ObjectInfo>,
                                      action: PlannedAction)
    ensures var staged := action.stagedThumbnailKey;
            action in Plan(req, FromEntries(entries), videos) <==>
              && Wanted(req, videos, action.videoKey, staged)
              && match action
                 case Process(_, _) => staged !in req.remoteStagedKeys && !Logged(req, entries, staged)
                 case SkipRemoteExists(_, _) => staged in req.remoteStagedKeys
                 case SkipManifestDone(_, _) => staged !in req.remoteStagedKeys && Logged(req, entries, staged)
  {
    hide Logged, ActionFor, Considered, FromEntries, Wanted;
    if videos == [] {
      NothingWanted(req, action.videoKey, action.stagedThumbnailKey);
    } else {
      var front, video := videos[..|videos| - 1], videos[|videos| - 1];
      PlannedIff(req, entries, front, action);
      ActionOfOne(req, entries, video, action);
      OneMoreWanted(req, front, video, action.videoKey, action.stagedThumbnailKey);
      assert videos == front + [video];
    }
  }

  lemma PlanOfNext(req: Request, manifest: Completed, videos: seq<ObjectInfo>, video: ObjectInfo)
    ensures Plan(req, manifest, videos + [video]) == Plan(req, manifest, videos) + Plan(req, manifest, [video])
  {
    assert (videos + [video])[..|videos|] == videos;
    assert [video][..0] == [];
  }

  lemma EmptyPlan(req: Request, manifest: Completed, videos: seq<ObjectInfo>)
    ensures Plan(req, manifest, []) == [] && videos + [] == videos
  {}

  lemma Regroup<T>(a: seq<T>, b: seq<T>, c: seq<T>)
    ensures a + b + c == a + (b + c)
  {}

  /** The plan goes through the listing in order. */
  lemma {:induction false} PlannedInOrder(req: Request, manifest: Completed, first: seq<ObjectInfo>,
                                          second: seq<ObjectInfo>)
    ensures Plan(req, manifest, first + second) == Plan(req, manifest, first) + Plan(req, manifest, second)
    decreases |second|
  {
    hide Plan;
    if second == [] {
      EmptyPlan(req, manifest, first);
    } else {
      var front, last := second[..|second| - 1], second[|second| - 1];
      PlannedInOrder(req, manifest, first, front);
      PlanOfNext(req, manifest, front, last);
      PlanOfNext(req, manifest, first + front, last);
      assert second == front + [last];
      Regroup(first, front, [last]);
      Regroup(Plan(req, manifest, first), Plan(req, manifest, front), Plan(req, manifest, [last]));
    }
  }

  /** With at most one action for a video. */
  lemma PlannedAtMostOnce(req: Request, manifest: Completed, video: ObjectInfo)
    ensures |Plan(req, manifest, [video])| <= 1
    ensures Plan(req, manifest, [video]) != [] ==> Plan(req, manifest, [video])[0].videoKey == video.key
  {
    assert [video][..0] == [];
  }

  lemma DoneIffLogged(entries: seq<ManifestEntry>, backend: BackendKind, bucket: string, staged: string)
    ensures ShouldSkipCompleted(FromEntries(entries), backend, bucket, staged)
       <==> exists e :: e in entries && e.status.Completed? && e.backend == backend
                        && e.bucket == bucket && e.stagedThumbnailKey == staged
  {
  }

  // ---- a crash ----

  /** Two plans that agree, except that the second may process what the first knew to be done under one key. */
  predicate OnlyRepeats(full: seq<PlannedAction>, crashed: seq<PlannedAction>, staged: string) {
    && |full| == |crashed|
    && forall i :: 0 <= i < |full| ==>
         || full[i] == crashed[i]
         || (full[i] == PlannedAction.SkipManifestDone(crashed[i].videoKey, staged)
             && crashed[i] == Process(crashed[i].videoKey, staged)
             && StagedThumbnailKey(crashed[i].videoKey) == Some(staged))
  }

  lemma {:induction false} LosingOneEntry(req: Request, entries: seq<ManifestEntry>, last: ManifestEntry,
                                          videos: seq<ObjectInfo>)
    ensures OnlyRepeats(Plan(req, FromEntries(entries + [last]), videos),
                        Plan(req, FromEntries(entries), videos),
                        last.stagedThumbnailKey)
  {
    if videos != [] {
      var video := videos[|videos| - 1];
      LosingOneEntry(req, entries, last, videos[..|videos| - 1]);
      if Considered(req, video) {
        var staged := StagedThumbnailKey(video.key).value;
        DoneIffLogged(entries, req.backend, req.bucket, staged);
        DoneIffLogged(entries + [last], req.backend, req.bucket, staged);
        assert last in entries + [last];
        assert forall e :: e in entries + [last] <==> e in entries || e == last;
      }
    }
  }

  ghost predicate DistinctKeys(videos: seq<ObjectInfo>) {
    forall i, j :: 0 <= i < j < |videos| ==> videos[i].key != videos[j].key
  }

  lemma {:induction false} PlanIsOfVideos(req: Request, manifest: Completed, videos: seq<ObjectInfo>, i: nat)
    requires i < |Plan(req, manifest, videos)|
    ensures exists k :: 0 <= k < |videos| && videos[k].key == Plan(req, manifest, videos)[i].videoKey
  {
    var last := |videos| - 1;
    if i < |Plan(req, manifest, videos[..last])| {
      PlanIsOfVideos(req, manifest, videos[..last], i);
      var k :| 0 <= k < last && videos[..last][k].key == Plan(req, manifest, videos[..last])[i].videoKey;
      assert videos[k].key == Plan(req, manifest, videos)[i].videoKey;
    } else {
      assert videos[last].key == Plan(req, manifest, videos)[i].videoKey;
    }
  }

  /** A listing without repeated keys is planned without repeated keys. */
  lemma {:induction false} PlannedOnce(req: Request, manifest: Completed, videos: seq<ObjectInfo>, i: nat, j: nat)
    requires DistinctKeys(videos) && i < j < |Plan(req, manifest, videos)|
    ensures Plan(req, manifest, videos)[i].videoKey != Plan(req, manifest, videos)[j].videoKey
  {
    var last := |videos| - 1;
    var front := Plan(req, manifest, videos[..last]);
    if j < |front| {
      PlannedOnce(req, manifest, videos[..last], i, j);
    } else {
      PlanIsOfVideos(req, manifest, videos[..last], i);
    }
  }

  lemma RepeatsAtMostOnce(req: Request, full: Completed, crashed: Completed, videos: seq<ObjectInfo>, staged: string,
                          i: nat, j: nat)
    requires DistinctKeys(videos) && OnlyRepeats(Plan(req, full, videos), Plan(req, crashed, videos), staged)
    requires i < |Plan(req, full, videos)| && j < |Plan(req, full, videos)|
    requires Plan(req, full, videos)[i] != Plan(req, crashed, videos)[i]
    requires Plan(req, full, videos)[j] != Plan(req, crashed, videos)[j]
    ensures i == j
  {
    hide Plan, DistinctKeys;
    var plan := Plan(req, crashed, videos);
    StagedKeysAreDistinct(plan[i].videoKey, plan[j].videoKey);
    if i < j { PlannedOnce(req, crashed, videos, i, j); }
    if j < i { PlannedOnce(req, crashed, videos, j, i); }
  }

  /**
   A crash while the last entry is being appended costs at most that one thumbnail:
   the manifest can be read, and the plan made from it repeats at most the videos
   staged under the last entry's key, which is at most one video key.
   */
  lemma CrashRepeatsAtMostOneThumbnail(printer: Printer, parse: Parser, entries: seq<ManifestEntry>,
                                       last: ManifestEntry,
                                       n: nat, req: Request, videos: seq<ObjectInfo>)
    requires OneLineCodec(printer, parse)
    requires |Log(printer, entries)| <= n <= |Log(printer, entries + [last])|
    ensures ParseLog(parse, Log(printer, entries + [last])[..n]).Ok?
    ensures OnlyRepeats(Plan(req, FromEntries(entries + [last]), videos),
                        Plan(req, FromEntries(ParseLog(parse, Log(printer, entries + [last])[..n]).value), videos),
                        last.stagedThumbnailKey)
    ensures DistinctKeys(videos) ==>
              var full := Plan(req, FromEntries(entries + [last]), videos);
              var crashed := Plan(req, FromEntries(ParseLog(parse, Log(printer, entries + [last])[..n]).value), videos);
              forall i, j ::
                0 <= i < |full| && 0 <= j < |full| && full[i] != crashed[i] && full[j] != crashed[j] ==> i == j
  {
    hide Log, ParseLog, Plan, FromEntries, OneLineCodec;
    var all := entries + [last];
    assert all[..|entries|] == entries && all[..|all|] == all;
    var kept := EveryCutReads(printer, parse, all, n);
    LosingOneEntry(req, entries, last, videos);
    WholeEntriesAreKept(printer, all, n, |entries|);
    assert entries != [] ==> KeptByCut(printer, all, n, |entries| - 1);
    assert all[..kept] == entries || all[..kept] == all;
    var full, crashed := FromEntries(all), FromEntries(all[..kept]);
    forall i, j | DistinctKeys(videos) && 0 <= i < |Plan(req, full, videos)| && 0 <= j < |Plan(req, full, videos)|
                  && Plan(req, full, videos)[i] != Plan(req, crashed, videos)[i]
                  && Plan(req, full, videos)[j] != Plan(req, crashed, videos)[j]
      ensures i == j
    {
      RepeatsAtMostOnce(req, full, crashed, videos, last.stagedThumbnailKey, i, j);
    }
  }
}
